/** What a sliding-window limiter promises, stated over the full log of accepted requests, and
    the facts about pruned timestamp lists that the limiters of this project share. */
module SlidingWindow {

  /** Clock readings, in nanoseconds. */
  type Time = int
  type Key = string
  type Lists = map<Key, seq<Time>>

  datatype Accepted = Accepted(key: Key, at: Time)

  /** The timestamps after `cutoff`, in order. */
  function Recent(ts: seq<Time>, cutoff: Time): seq<Time> {
    if ts == [] then []
    else Recent(ts[..|ts| - 1], cutoff) + (if ts[|ts| - 1] > cutoff then [ts[|ts| - 1]] else [])
  }

  /** The timestamps after `from` and up to `to`. */
  function Between(ts: seq<Time>, from: Time, to: Time): seq<Time> {
    if ts == [] then []
    else Between(ts[..|ts| - 1], from, to) + (if from < ts[|ts| - 1] <= to then [ts[|ts| - 1]] else [])
  }

  function ListOf(m: Lists, key: Key): seq<Time> {
    if key in m then m[key] else []
  }

  /** When the requests of `key` were accepted. */
  function TimesOf(log: seq<Accepted>, key: Key): seq<Time> {
    if log == [] then []
    else TimesOf(log[..|log| - 1], key) + (if log[|log| - 1].key == key then [log[|log| - 1].at] else [])
  }

  /** The naive decision: fewer than `limit` requests of this key in the window that ends now. */
  predicate FullLogAccepts(log: seq<Accepted>, key: Key, now: Time, limit: int, window: int) {
    |Recent(TimesOf(log, key), now - window)| < limit
  }

  /** Every accepted request found fewer than `limit` others in its window. */
  predicate Metered(ts: seq<Time>, limit: int, window: int) {
    ts == [] || (Metered(ts[..|ts| - 1], limit, window) && |Recent(ts[..|ts| - 1], ts[|ts| - 1] - window)| < limit)
  }

  // ---------------------------------------------------------------------
  // Pruned lists
  // ---------------------------------------------------------------------

  lemma RecentAppend(ts: seq<Time>, t: Time, cutoff: Time)
    ensures Recent(ts + [t], cutoff) == Recent(ts, cutoff) + (if t > cutoff then [t] else [])
  {
  }

  lemma TimesOfAppend(log: seq<Accepted>, a: Accepted, key: Key)
    ensures TimesOf(log + [a], key) == TimesOf(log, key) + (if a.key == key then [a.at] else [])
  {
  }

  lemma MeteredAppend(ts: seq<Time>, t: Time, limit: int, window: int)
    requires Metered(ts, limit, window) && |Recent(ts, t - window)| < limit
    ensures Metered(ts + [t], limit, window)
  {
  }

  /** Pruning with an early cutoff does not change what a later cutoff leaves. */
  lemma {:induction false} RecentTwice(ts: seq<Time>, early: Time, late: Time)
    requires early <= late
    ensures Recent(Recent(ts, early), late) == Recent(ts, late)
  {
    if ts == [] {
    } else {
      var n := |ts| - 1;
      RecentTwice(ts[..n], early, late);
      if ts[n] > early {
        RecentAppend(Recent(ts[..n], early), ts[n], late);
      } else {
        assert Recent(ts, early) == Recent(ts[..n], early);
      }
    }
  }

  lemma {:induction false} RecentMembers(ts: seq<Time>, cutoff: Time)
    ensures forall t :: t in Recent(ts, cutoff) <==> t in ts && t > cutoff
  {
    if ts == [] {
    } else {
      var n := |ts| - 1;
      RecentMembers(ts[..n], cutoff);
      assert ts == ts[..n] + [ts[n]];
    }
  }

  lemma RecentSome(ts: seq<Time>, cutoff: Time)
    ensures Recent(ts, cutoff) != [] <==> exists t :: t in ts && t > cutoff
  {
    hide Recent;
    var kept := Recent(ts, cutoff);
    RecentMembers(ts, cutoff);
    if kept != [] {
      assert kept[0] in kept;
      assert kept[0] in ts && kept[0] > cutoff;
    } else {
      forall t | t in ts ensures t <= cutoff { assert t !in kept; }
    }
  }

  lemma SubsetSize(a: set<Key>, b: set<Key>)
    requires a <= b
    ensures |a| <= |b|
  {
    assert b == a + (b - a);
  }

  /** The length of a pruned list is the number of its timestamps behind the cutoff. */
  lemma {:induction false} RecentCount(ts: seq<Time>, cutoff: Time)
    ensures |Recent(ts, cutoff)| == |set i | 0 <= i < |ts| && ts[i] > cutoff|
  {
    var late := set i | 0 <= i < |ts| && ts[i] > cutoff;
    if ts == [] {
    } else {
      var n := |ts| - 1;
      RecentCount(ts[..n], cutoff);
      var before := set i | 0 <= i < |ts[..n]| && ts[..n][i] > cutoff;
      assert late == if ts[n] > cutoff then before + {n} else before;
    }
  }

  /** `kept` and `all` cannot be told apart by any window that starts at `cutoff` or later. */
  ghost predicate Agree(kept: seq<Time>, all: seq<Time>, cutoff: Time) {
    Recent(kept, cutoff) == Recent(all, cutoff)
  }

  lemma AgreeLater(kept: seq<Time>, all: seq<Time>, cutoff: Time, later: Time)
    requires Agree(kept, all, cutoff) && cutoff <= later
    ensures Agree(kept, all, later)
  {
    RecentTwice(kept, cutoff, later);
    RecentTwice(all, cutoff, later);
  }

  lemma AgreePruned(kept: seq<Time>, all: seq<Time>, cutoff: Time)
    requires Agree(kept, all, cutoff)
    ensures Agree(Recent(kept, cutoff), all, cutoff)
  {
    RecentTwice(kept, cutoff, cutoff);
  }

  lemma AgreeAppended(kept: seq<Time>, all: seq<Time>, t: Time, cutoff: Time)
    requires Agree(kept, all, cutoff)
    ensures Agree(kept + [t], all + [t], cutoff)
  {
  }

  /** The lists of a limiter stand for the log. */
  ghost predicate Represents(m: Lists, log: seq<Accepted>, cutoff: Time) {
    forall key :: Agree(ListOf(m, key), TimesOf(log, key), cutoff)
  }

  lemma RepresentsLater(m: Lists, log: seq<Accepted>, cutoff: Time, later: Time)
    requires Represents(m, log, cutoff) && cutoff <= later
    ensures Represents(m, log, later)
  {
    hide Agree;
    forall key ensures Agree(ListOf(m, key), TimesOf(log, key), later) {
      AgreeLater(ListOf(m, key), TimesOf(log, key), cutoff, later);
    }
  }

  /** A refused request prunes one list. */
  lemma RepresentsPruned(m: Lists, log: seq<Accepted>, key: Key, cutoff: Time)
    requires Represents(m, log, cutoff)
    ensures Represents(m[key := Recent(ListOf(m, key), cutoff)], log, cutoff)
  {
    hide Agree;
    AgreePruned(ListOf(m, key), TimesOf(log, key), cutoff);
    forall k ensures Agree(ListOf(m[key := Recent(ListOf(m, key), cutoff)], k), TimesOf(log, k), cutoff) {
      assert Agree(ListOf(m, k), TimesOf(log, k), cutoff);
    }
  }

  /** An accepted one also appends to it, and to the log. */
  lemma RepresentsAccepted(m: Lists, log: seq<Accepted>, key: Key, now: Time, cutoff: Time)
    requires Represents(m, log, cutoff)
    ensures Represents(m[key := Recent(ListOf(m, key), cutoff) + [now]], log + [Accepted(key, now)], cutoff)
  {
    hide Agree, Recent, TimesOf;
    var pruned := Recent(ListOf(m, key), cutoff);
    RepresentsPruned(m, log, key, cutoff);
    assert ListOf(m[key := pruned], key) == pruned;
    AgreeAppended(pruned, TimesOf(log, key), now, cutoff);
    forall k ensures Agree(ListOf(m[key := pruned + [now]], k), TimesOf(log + [Accepted(key, now)], k), cutoff) {
      TimesOfAppend(log, Accepted(key, now), k);
      assert TimesOf(log, k) + [] == TimesOf(log, k);
      assert Agree(ListOf(m[key := pruned], k), TimesOf(log, k), cutoff);
    }
  }

  /** A sweep may prune lists and drop the ones that end up empty. */
  lemma RepresentsSwept(m: Lists, n: Lists, log: seq<Accepted>, cutoff: Time)
    requires Represents(m, log, cutoff)
    requires forall key :: Recent(ListOf(n, key), cutoff) == Recent(ListOf(m, key), cutoff)
    ensures Represents(n, log, cutoff)
  {
  }

  // ---------------------------------------------------------------------
  // The bound
  // ---------------------------------------------------------------------

  lemma {:induction false} BetweenIsRecent(ts: seq<Time>, from: Time, to: Time, cutoff: Time)
    requires cutoff <= from
    ensures |Between(ts, from, to)| <= |Recent(ts, cutoff)|
  {
    if ts == [] {
    } else {
      BetweenIsRecent(ts[..|ts| - 1], from, to, cutoff);
    }
  }

  /** No window of the given length, wherever it starts, holds more than `limit` of them. */
  lemma {:induction false} MeteredBound(ts: seq<Time>, limit: nat, window: int, from: Time)
    requires Metered(ts, limit, window)
    ensures |Between(ts, from, from + window)| <= limit
  {
    if ts == [] {
    } else {
      var n := |ts| - 1;
      MeteredBound(ts[..n], limit, window, from);
      if from < ts[n] <= from + window {
        BetweenIsRecent(ts[..n], from, from + window, ts[n] - window);
      }
    }
  }

  ghost predicate AllMetered(log: seq<Accepted>, limit: int, window: int) {
    forall key :: Metered(TimesOf(log, key), limit, window)
  }

  lemma AllMeteredAppend(log: seq<Accepted>, key: Key, now: Time, limit: int, window: int)
    requires AllMetered(log, limit, window) && FullLogAccepts(log, key, now, limit, window)
    ensures AllMetered(log + [Accepted(key, now)], limit, window)
  {
    hide Metered, Recent, TimesOf;
    forall k ensures Metered(TimesOf(log + [Accepted(key, now)], k), limit, window) {
      TimesOfAppend(log, Accepted(key, now), k);
      assert TimesOf(log, k) + [] == TimesOf(log, k);
      assert Metered(TimesOf(log, k), limit, window);
      if k == key { MeteredAppend(TimesOf(log, key), now, limit, window); }
    }
  }

  // ---------------------------------------------------------------------
  // The limiter that forgets nothing
  // ---------------------------------------------------------------------

  /** The accepted requests of `key` after `cutoff`, by their places in the log. */
  ghost function Inside(log: seq<Accepted>, key: Key, cutoff: Time): set<int> {
    set i | 0 <= i < |log| && log[i].key == key && cutoff < log[i].at
  }

  lemma InsideAppend(log: seq<Accepted>, a: Accepted, key: Key, cutoff: Time)
    ensures |Inside(log + [a], key, cutoff)|
            == |Inside(log, key, cutoff)| + (if a.key == key && cutoff < a.at then 1 else 0)
  {
    var before, after := Inside(log, key, cutoff), Inside(log + [a], key, cutoff);
    assert after == if a.key == key && cutoff < a.at then before + {|log|} else before;
  }

  /** The naive decision, counted request by request. */
  lemma {:induction false} WindowCount(log: seq<Accepted>, key: Key, cutoff: Time)
    ensures |Recent(TimesOf(log, key), cutoff)| == |Inside(log, key, cutoff)|
  {
    if log == [] {
      assert Inside(log, key, cutoff) == {};
    } else {
      hide Recent, TimesOf, Inside;
      var n := |log| - 1;
      WindowCount(log[..n], key, cutoff);
      assert log == log[..n] + [log[n]];
      InsideAppend(log[..n], log[n], key, cutoff);
      TimesOfAppend(log[..n], log[n], key);
      RecentAppend(TimesOf(log[..n], key), log[n].at, cutoff);
      assert TimesOf(log[..n], key) + [] == TimesOf(log[..n], key);
    }
  }

  /** What a limiter that forgets nothing accepts of some requests: one for which fewer than
      `limit` accepted requests of its key lie in the window that ends with it. */
  ghost function FullLog(requests: seq<Accepted>, limit: int, window: int): seq<Accepted> {
    if requests == [] then []
    else
      var n := |requests| - 1;
      var log := FullLog(requests[..n], limit, window);
      if |Inside(log, requests[n].key, requests[n].at - window)| < limit then log + [requests[n]] else log
  }

  lemma FullLogAppend(requests: seq<Accepted>, r: Accepted, limit: int, window: int)
    ensures var log := FullLog(requests, limit, window);
            FullLog(requests + [r], limit, window)
            == if |Inside(log, r.key, r.at - window)| < limit then log + [r] else log
  {
    hide Inside;
    assert (requests + [r])[..|requests|] == requests;
  }

  // ---------------------------------------------------------------------
  // Slices of timestamps
  // ---------------------------------------------------------------------

  /** A growable slice: the first `len` cells of `data`. */
  datatype Slice = Slice(data: array<Time>, len: nat)

  ghost function Contents(s: Slice): seq<Time>
    requires s.len <= s.data.Length
    reads s.data
  {
    s.data[..s.len]
  }

  /** Moves the timestamps after `cutoff` to the front, in order. */
  method Compact(data: array<Time>, len: nat, cutoff: Time) returns (kept: nat)
    requires len <= data.Length
    modifies data
    ensures kept <= len && data[..kept] == Recent(old(data[..len]), cutoff)
  {
    kept := 0;
    for i := 0 to len
      invariant kept <= i
      invariant data[..kept] == Recent(old(data[..i]), cutoff)
      invariant data[i..] == old(data[i..])
    {
      assert old(data[..i + 1]) == old(data[..i]) + [old(data[i])] && data[i] == old(data[i..])[0] == old(data[i]);
      RecentAppend(old(data[..i]), data[i], cutoff);
      if data[i] > cutoff {
        data[kept] := data[i];
        kept := kept + 1;
      }
      assert data[i + 1..] == old(data[i..])[1..];
    }
  }

  /** Writes behind the slice, in the same array when it has a spare cell. */
  method Append(s: Slice, t: Time) returns (r: Slice)
    requires s.len <= s.data.Length
    modifies s.data
    ensures r.len == s.len + 1 <= r.data.Length && Contents(r) == old(Contents(s)) + [t]
    ensures r.data == s.data || fresh(r.data)
  {
    if s.len < s.data.Length {
      s.data[s.len] := t;
      r := Slice(s.data, s.len + 1);
    } else {
      var bigger := new Time[2 * s.len + 1];
      for i := 0 to s.len
        invariant bigger[..i] == s.data[..i] && s.data[..] == old(s.data[..])
      {
        bigger[i] := s.data[i];
      }
      bigger[s.len] := t;
      r := Slice(bigger, s.len + 1);
    }
  }
}
