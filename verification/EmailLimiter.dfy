/** The per-address limiter of `processing/internal/middleware/ratelimit.go`.

    It has no capacity, and its cleanup compacts every list in place. */
module EmailLimiter {
  import opened SlidingWindow

  datatype Config = Config(limit: int, window: int)

  // ---------------------------------------------------------------------
  // What a request and a cleanup do to the lists
  // ---------------------------------------------------------------------

  predicate Allows(c: Config, m: Lists, email: Key, now: Time) {
    |Recent(ListOf(m, email), now - c.window)| < c.limit
  }

  function AfterRequest(c: Config, m: Lists, email: Key, now: Time): Lists {
    m[email := Recent(ListOf(m, email), now - c.window) + (if Allows(c, m, email, now) then [now] else [])]
  }

  /** The lists when all but those in `todo` are compacted. */
  function CompactedExcept(m: Lists, todo: set<Key>, cutoff: Time): Lists {
    map k | k in m && (k in todo || Recent(m[k], cutoff) != []) :: if k in todo then m[k] else Recent(m[k], cutoff)
  }

  function AfterCleanup(c: Config, m: Lists, now: Time): Lists {
    CompactedExcept(m, {}, now - c.window)
  }

  // ---------------------------------------------------------------------
  // The limiter object
  // ---------------------------------------------------------------------

  class EmailRateLimiter {
    const c: Config
    const normalize: string -> Key
    var entries: map<Key, Slice>

    /** No two addresses share an array. */
    ghost predicate Valid()
      reads this
    {
      && (forall k :: k in entries ==> entries[k].len <= entries[k].data.Length)
      && (forall k, j :: k in entries && j in entries && entries[k].data == entries[j].data ==> k == j)
    }

    ghost function Arrays(): set<array<Time>>
      reads this
    {
      set k | k in entries :: entries[k].data
    }

    ghost function View(): Lists
      requires Valid()
      reads this, Arrays()
    {
      map k | k in entries :: Contents(entries[k])
    }

    /** `normalize` trims an address and lower-cases it. */
    constructor (limit: int, window: int, normalize: string -> Key)
      ensures Valid() && View() == map[] && c == Config(limit, window) && this.normalize == normalize
    {
      c, this.normalize := Config(limit, window), normalize;
      entries := map[];
    }

    method Allow(address: string, now: Time) returns (allowed: bool)
      requires Valid()
      modifies this`entries, Arrays()
      ensures Valid()
      ensures allowed == Allows(c, old(View()), normalize(address), now)
      ensures View() == AfterRequest(c, old(View()), normalize(address), now)
    {
      hide Recent;
      ghost var m := View();
      var email := normalize(address);
      var ts: Slice;
      if email in entries {
        ts := entries[email];
      } else {
        var none := new Time[0];
        ts := Slice(none, 0);
      }
      assert Contents(ts) == ListOf(m, email);
      var kept := Compact(ts.data, ts.len, now - c.window);
      var valid := Slice(ts.data, kept);
      if kept >= c.limit {
        assert Contents(valid) + [] == Contents(valid);
        Put(m, email, valid);
        return false;
      }
      var longer := Append(valid, now);
      Put(m, email, longer);
      return true;
    }

    /** Stores a slice that shares its array with no other address. */
    method Put(ghost m: Lists, email: Key, s: Slice)
      requires Valid() && s.len <= s.data.Length
      requires forall k :: k in entries && k != email ==> entries[k].data != s.data
      requires m.Keys == entries.Keys && forall k :: k in entries && k != email ==> Contents(entries[k]) == m[k]
      modifies this`entries
      ensures Valid() && View() == m[email := Contents(s)]
      ensures entries == old(entries)[email := s]
    {
      entries := entries[email := s];
      assert View().Keys == m[email := Contents(s)].Keys;
    }

    /** Compacts one list; an empty one is dropped. */
    method CompactOne(email: Key, cutoff: Time)
      requires Valid() && email in entries
      modifies this`entries, entries[email].data
      ensures Valid() && Arrays() <= old(Arrays())
      ensures View() == (if Recent(old(View())[email], cutoff) == [] then old(View()) - {email}
                         else old(View())[email := Recent(old(View())[email], cutoff)])
    {
      hide Recent;
      ghost var m := View();
      var ts := entries[email];
      var kept := Compact(ts.data, ts.len, cutoff);
      if kept == 0 {
        entries := entries - {email};
      } else {
        Put(m, email, Slice(ts.data, kept));
      }
    }

    /** One tick of the cleanup goroutine. */
    method Cleanup(now: Time)
      requires Valid()
      modifies this`entries, Arrays()
      ensures Valid() && View() == AfterCleanup(c, old(View()), now)
    {
      hide Recent, CompactedExcept;
      var cutoff := now - c.window;
      ghost var m := View();
      var todo := entries.Keys;
      assert todo == m.Keys;
      CompactNone(m, cutoff);
      while todo != {}
        invariant Valid() && todo <= m.Keys && Arrays() <= old(Arrays())
        invariant View() == CompactedExcept(m, todo, cutoff)
      {
        var email :| email in todo;
        CompactNext(m, todo, email, cutoff);
        CompactOne(email, cutoff);
        todo := todo - {email};
      }
    }
  }

  /** What the decision is, counted timestamp by timestamp. */
  lemma AllowsExactly(c: Config, m: Lists, email: Key, now: Time)
    ensures var ts := if email in m then m[email] else [];
            Allows(c, m, email, now) <==> |set i | 0 <= i < |ts| && ts[i] > now - c.window| < c.limit
  {
    hide Recent;
    RecentCount(ListOf(m, email), now - c.window);
  }

  /** A cleanup leaves exactly the timestamps in the window, and no empty list. */
  lemma CleanupLists(c: Config, m: Lists, now: Time, k: Key)
    ensures var n := AfterCleanup(c, m, now);
            && (k in n <==> k in m && exists t :: t in m[k] && t > now - c.window)
            && (k in n ==> forall t :: t in n[k] <==> t in m[k] && t > now - c.window)
  {
    hide Recent;
    if k in m {
      RecentSome(m[k], now - c.window);
      RecentMembers(m[k], now - c.window);
    }
  }

  lemma CompactNone(m: Lists, cutoff: Time)
    ensures CompactedExcept(m, m.Keys, cutoff) == m
  {
  }

  lemma CompactNext(m: Lists, todo: set<Key>, email: Key, cutoff: Time)
    requires email in todo && todo <= m.Keys
    ensures var lists, r := CompactedExcept(m, todo, cutoff), Recent(m[email], cutoff);
            && email in lists && lists[email] == m[email]
            && CompactedExcept(m, todo - {email}, cutoff) == if r == [] then lists - {email} else lists[email := r]
  {
  }

  // ---------------------------------------------------------------------
  // Every run
  // ---------------------------------------------------------------------

  datatype Op = Request(email: Key, now: Time) | Cleanup(now: Time)

  datatype State = State(lists: Lists, log: seq<Accepted>)

  function Do(c: Config, s: State, op: Op): State {
    match op
    case Request(email, now) =>
      State(AfterRequest(c, s.lists, email, now),
            if Allows(c, s.lists, email, now) then s.log + [Accepted(email, now)] else s.log)
    case Cleanup(now) => s.(lists := AfterCleanup(c, s.lists, now))
  }

  function Run(c: Config, ops: seq<Op>): State {
    if ops == [] then State(map[], []) else Do(c, Run(c, ops[..|ops| - 1]), ops[|ops| - 1])
  }

  /** The clock never goes back, and has not passed `now`. The limiter reads it under its lock. */
  predicate Ordered(ops: seq<Op>, now: Time) {
    ops == [] || (ops[|ops| - 1].now <= now && Ordered(ops[..|ops| - 1], ops[|ops| - 1].now))
  }

  ghost predicate Inv(c: Config, s: State, now: Time) {
    Represents(s.lists, s.log, now - c.window) && AllMetered(s.log, c.limit, c.window)
  }

  lemma RequestKept(c: Config, s: State, email: Key, now: Time)
    requires Inv(c, s, now)
    ensures Inv(c, Do(c, s, Request(email, now)), now)
    ensures Allows(c, s.lists, email, now) <==> FullLogAccepts(s.log, email, now, c.limit, c.window)
  {
    hide AllMetered, Recent, TimesOf;
    var cutoff := now - c.window;
    assert Agree(ListOf(s.lists, email), TimesOf(s.log, email), cutoff);
    hide Represents;
    if Allows(c, s.lists, email, now) {
      RepresentsAccepted(s.lists, s.log, email, now, cutoff);
      AllMeteredAppend(s.log, email, now, c.limit, c.window);
    } else {
      RepresentsPruned(s.lists, s.log, email, cutoff);
      assert Recent(ListOf(s.lists, email), cutoff) + [] == Recent(ListOf(s.lists, email), cutoff);
    }
  }

  lemma CleanupKept(c: Config, s: State, now: Time)
    requires Inv(c, s, now)
    ensures Inv(c, Do(c, s, Cleanup(now)), now)
  {
    hide Represents, AllMetered;
    var cutoff := now - c.window;
    forall k ensures Recent(ListOf(AfterCleanup(c, s.lists, now), k), cutoff) == Recent(ListOf(s.lists, k), cutoff) {
      RecentTwice(ListOf(s.lists, k), cutoff, cutoff);
    }
    RepresentsSwept(s.lists, AfterCleanup(c, s.lists, now), s.log, cutoff);
  }

  lemma {:induction false} InvAlongRun(c: Config, ops: seq<Op>, now: Time)
    requires Ordered(ops, now)
    ensures Inv(c, Run(c, ops), now)
    decreases |ops|
  {
    hide Do, Represents;
    if ops == [] {
      EmptyInv(c, now);
    } else {
      var op := ops[|ops| - 1];
      var before := Run(c, ops[..|ops| - 1]);
      InvAlongRun(c, ops[..|ops| - 1], op.now);
      if op.Request? { RequestKept(c, before, op.email, op.now); } else { CleanupKept(c, before, op.now); }
      var after := Do(c, before, op);
      RepresentsLater(after.lists, after.log, op.now - c.window, now - c.window);
    }
  }

  lemma EmptyInv(c: Config, now: Time)
    ensures Inv(c, State(map[], []), now)
  {
  }

  /** After every run the limiter decides as one that keeps the full log: it accepts a request
      exactly when fewer than `limit` accepted requests of its address lie in the window. */
  lemma DecidesLikeFullLog(c: Config, ops: seq<Op>, email: Key, now: Time)
    requires Ordered(ops, now)
    ensures var s, t := Run(c, ops), Run(c, ops + [Request(email, now)]);
            t.log == if |Inside(s.log, email, now - c.window)| < c.limit then s.log + [Accepted(email, now)] else s.log
  {
    hide Recent, TimesOf, Run, Represents, AllMetered, AfterRequest, Inside;
    RunAppend(c, ops, Request(email, now));
    InvAlongRun(c, ops, now);
    RequestKept(c, Run(c, ops), email, now);
    WindowCount(Run(c, ops).log, email, now - c.window);
  }

  lemma RunAppend(c: Config, ops: seq<Op>, op: Op)
    ensures Run(c, ops + [op]) == Do(c, Run(c, ops), op)
  {
    assert (ops + [op])[..|ops|] == ops;
  }

  /** The requests of a run, in order. */
  function RequestsOf(ops: seq<Op>): seq<Accepted> {
    if ops == [] then []
    else
      var n := |ops| - 1;
      RequestsOf(ops[..n]) + (if ops[n].Request? then [Accepted(ops[n].email, ops[n].now)] else [])
  }

  lemma RequestsAppend(ops: seq<Op>, op: Op)
    ensures RequestsOf(ops + [op])
            == if op.Request? then RequestsOf(ops) + [Accepted(op.email, op.now)] else RequestsOf(ops)
  {
    assert (ops + [op])[..|ops|] == ops;
    assert RequestsOf(ops) + [] == RequestsOf(ops);
  }

  lemma NextLikeFullLog(c: Config, ops: seq<Op>, op: Op)
    requires Ordered(ops, op.now) && Run(c, ops).log == FullLog(RequestsOf(ops), c.limit, c.window)
    ensures Run(c, ops + [op]).log == FullLog(RequestsOf(ops + [op]), c.limit, c.window)
  {
    hide Run, FullLog, Inside, RequestsOf, Ordered;
    RequestsAppend(ops, op);
    if op.Request? {
      DecidesLikeFullLog(c, ops, op.email, op.now);
      FullLogAppend(RequestsOf(ops), Accepted(op.email, op.now), c.limit, c.window);
    } else {
      RunAppend(c, ops, op);
    }
  }

  /** Over every run it accepts exactly what a limiter accepts that forgets nothing. */
  lemma {:induction false} AcceptsLikeFullLog(c: Config, ops: seq<Op>, now: Time)
    requires Ordered(ops, now)
    ensures Run(c, ops).log == FullLog(RequestsOf(ops), c.limit, c.window)
    decreases |ops|
  {
    if ops == [] {
    } else {
      hide FullLog, Inside, RequestsOf, Run;
      var n := |ops| - 1;
      AcceptsLikeFullLog(c, ops[..n], ops[n].now);
      assert ops[..n] + [ops[n]] == ops;
      NextLikeFullLog(c, ops[..n], ops[n]);
    }
  }

  /** No window holds more than `limit` accepted requests of an address. */
  lemma WindowBound(c: Config, ops: seq<Op>, now: Time, email: Key, from: Time)
    requires 0 <= c.limit && Ordered(ops, now)
    ensures |Between(TimesOf(Run(c, ops).log, email), from, from + c.window)| <= c.limit
  {
    hide Run;
    InvAlongRun(c, ops, now);
    MeteredBound(TimesOf(Run(c, ops).log, email), c.limit, c.window, from);
  }
}
