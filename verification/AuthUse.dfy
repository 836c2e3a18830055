/** Which entries the cache of `proxy/internal/auth/cache.go` holds, serves and gives up, read off
    the log of interleaved lookups. */
module AuthUse {
  import opened Options
  import opened AuthCaching
  import opened AuthRuns

  /** When the digest was last stored or hit. */
  function LastUse(log: seq<Event>, d: Digest): Option<Time> {
    if log == [] then None
    else match log[|log| - 1]
      case Hit(_, d', _, _, touched) => if d' == d then Some(touched) else LastUse(log[..|log| - 1], d)
      case Kept(_, d', _, at) => if d' == d then Some(at) else LastUse(log[..|log| - 1], d)
      case _ => LastUse(log[..|log| - 1], d)
  }

  lemma LastUseAppended(log: seq<Event>, e: Event, d: Digest)
    ensures LastUse(log + [e], d)
            == if e.Hit? && e.digest == d then Some(e.touched)
               else if e.Kept? && e.digest == d then Some(e.at) else LastUse(log, d)
  {
  }

  ghost predicate UseOk(s: State) {
    forall d :: d in s.entries ==> LastUse(s.log, d) == Some(s.entries[d].lastUsedAt)
  }

  // ---------------------------------------------------------------------
  // What a step does to the entries
  // ---------------------------------------------------------------------

  /** A hit only moves the time of last use; a store enters its result, leaves the entries it keeps
      alone; a sweep drops exactly the entries past their expiry; nothing else touches the map. */
  ghost predicate EntriesStep(s: State, a: Step, t: State)
    requires Enabled(s, a)
  {
    match a
    case Check(i, wait) =>
      var d := s.lookups[i].digest;
      if d in s.entries && s.now < s.entries[d].expiresAt then
        && t.entries == s.entries[d := CacheEntry(s.entries[d].result, s.entries[d].expiresAt, s.now + wait)]
        && t.lookups == s.lookups[i := Returned(d, Some(s.entries[d].result))]
        && t.log == s.log + [Hit(i, d, s.entries[d].result, s.now, s.now + wait)]
      else
        && t.entries == s.entries && |t.log| == |s.log| + 1 && t.log[..|s.log|] == s.log
        && var e := t.log[|s.log|]; e.Missed? && e.digest == d && e.at == s.now
    case Store(i, wait, _) =>
      var d, r := s.lookups[i].digest, s.lookups[i].result;
      && t.log == s.log + [Kept(i, d, r, s.now + wait)]
      && d in t.entries && t.entries[d] == CacheEntry(r, s.now + wait + s.ttl, s.now + wait)
      && forall k :: k in t.entries && k != d ==> k in s.entries && t.entries[k] == s.entries[k]
    case Sweep =>
      && t.log == s.log + [Swept(s.now)]
      && (forall k :: k in t.entries <==> k in s.entries && s.now <= s.entries[k].expiresAt)
      && forall k :: k in t.entries ==> t.entries[k] == s.entries[k]
    case Tick(_) => t.entries == s.entries && t.log == s.log
    case _ =>
      && t.entries == s.entries && |t.log| == |s.log| + 1 && t.log[..|s.log|] == s.log
      && var e := t.log[|s.log|]; !e.Hit? && !e.Kept? && !e.Missed?
  }

  lemma StepEntries(s: State, a: Step)
    requires Inv(s) && Enabled(s, a)
    ensures EntriesStep(s, a, Do(s, a))
    ensures Do(s, a).ttl == s.ttl && Do(s, a).max == s.max && s.now <= Do(s, a).now
  {
    if a.Store? {
      StoreEntries(s, a);
    } else {
      hide Inv, MayEvict, Stored, StaleAnswer, OpenAt;
    }
  }

  lemma StoreEntries(s: State, a: Step)
    requires Inv(s) && Enabled(s, a) && a.Store?
    ensures EntriesStep(s, a, Do(s, a))
    ensures Do(s, a).ttl == s.ttl && Do(s, a).max == s.max && s.now <= Do(s, a).now
  {
    hide BreakerOk, EntriesOk, LookupsOk, Justified, Stored, MayEvict;
    var pc, used := s.lookups[a.who], s.now + a.wait;
    StoreKeepsRest(s.entries, s.max, s.now, a.victim, pc.digest, CacheEntry(pc.result, used + s.ttl, used));
  }

  // ---------------------------------------------------------------------
  // The time of last use
  // ---------------------------------------------------------------------

  lemma UseKept(s: State, a: Step)
    requires Enabled(s, a) && UseOk(s) && EntriesStep(s, a, Do(s, a))
    ensures UseOk(Do(s, a))
  {
    hide LastUse, Do;
    var t := Do(s, a);
    if !a.Tick? {
      var e := t.log[|s.log|];
      assert t.log == s.log + [e];
      forall d | d in t.entries ensures LastUse(t.log, d) == Some(t.entries[d].lastUsedAt) {
        LastUseAppended(s.log, e, d);
      }
    }
  }

  lemma {:induction false} UseAlongRun(s: State, steps: seq<Step>, t: State)
    requires Inv(s) && UseOk(s) && Run(s, steps, t)
    ensures UseOk(t)
    decreases |steps|
  {
    hide Inv, UseOk, Enabled, Do, EntriesStep;
    if steps == [] {
    } else {
      StepEntries(s, steps[0]);
      UseKept(s, steps[0]);
      InvKept(s, steps[0]);
      UseAlongRun(Do(s, steps[0]), steps[1..], t);
    }
  }

  /** In every run the time of last use of an entry is that of the latest store or hit of its
      digest. */
  lemma LastUsedIsLatest(ttl: int, max: nat, now: Time, steps: seq<Step>, t: State)
    requires 0 < max && Run(Init(ttl, max, now), steps, t)
    ensures forall d :: d in t.entries ==> LastUse(t.log, d) == Some(t.entries[d].lastUsedAt)
  {
    hide Run, Inv;
    InitInv(ttl, max, now);
    UseAlongRun(Init(ttl, max, now), steps, t);
  }

  /** When the digest was last stored, and how long that lasts. */
  ghost predicate Live(ttl: int, log: seq<Event>, d: Digest, now: Time) {
    LastKept(log, d).Some? && now <= LastKept(log, d).value.at + ttl
  }

  /** In every run an entry leaves the map only in a sweep or a store. A sweep takes exactly those
      past their expiry. A store takes a live one only when the map is full of live entries, and
      then one whose latest store or hit came no later than that of any other live entry. */
  lemma LeavesForAReason(ttl: int, max: nat, now: Time, steps: seq<Step>, s: State, a: Step, gone: Digest)
    requires 0 < max && Run(Init(ttl, max, now), steps, s) && Enabled(s, a)
    requires gone in s.entries && gone !in Do(s, a).entries
    ensures a.Sweep? || a.Store?
    ensures a.Sweep? ==> !Live(ttl, s.log, gone, s.now)
    ensures a.Store? && Live(ttl, s.log, gone, s.now) ==>
              && |set d | d in s.entries && Live(ttl, s.log, d, s.now)| == max
              && forall d :: d in s.entries && Live(ttl, s.log, d, s.now) ==>
                   LastUse(s.log, gone).Some? && LastUse(s.log, d).Some?
                       && LastUse(s.log, gone).value <= LastUse(s.log, d).value
  {
    hide Run, LastUse, LastKept, BreakerOk, LookupsOk, Justified;
    InitInv(ttl, max, now);
    InvAlongRun(Init(ttl, max, now), steps, s);
    LastUsedIsLatest(ttl, max, now, steps, s);
    StepEntries(s, a);
    assert forall d :: d in s.entries ==> (Live(ttl, s.log, d, s.now) <==> !Expired(s.entries[d], s.now));
    if a.Store? && Live(ttl, s.log, gone, s.now) {
      var pc, used := s.lookups[a.who], s.now + a.wait;
      hide EntriesStep;
      var e := CacheEntry(pc.result, used + s.ttl, used);
      StoreEvicts(s.entries, s.max, s.now, a.victim, pc.digest, e, gone);
      var live := set d | d in s.entries && Live(ttl, s.log, d, s.now);
      assert Purged(s.entries, s.now).Keys == live;
      SubmapSize(s.entries, Purged(s.entries, s.now));
    }
  }

  /** In every run a sweep leaves the live entries, all of them and no others. */
  lemma SweepKeepsLive(ttl: int, max: nat, now: Time, steps: seq<Step>, s: State)
    requires 0 < max && Run(Init(ttl, max, now), steps, s)
    ensures Do(s, Sweep).entries.Keys == set d | d in s.entries && Live(ttl, s.log, d, s.now)
  {
    hide Run, LastKept, BreakerOk, LookupsOk, Justified;
    InitInv(ttl, max, now);
    InvAlongRun(Init(ttl, max, now), steps, s);
    StepEntries(s, Sweep);
  }

  // ---------------------------------------------------------------------
  // Hits
  // ---------------------------------------------------------------------

  ghost function KeptDigests(log: seq<Event>): set<Digest> {
    set e | e in log && e.Kept? :: e.digest
  }

  lemma KeptDigestsAppended(log: seq<Event>, e: Event)
    ensures KeptDigests(log + [e]) == KeptDigests(log) + (if e.Kept? then {e.digest} else {})
  {
    assert forall x :: x in log + [e] <==> x in log || x == e;
  }

  /** A miss finds nothing stored, or something past its expiry. */
  ghost predicate MissesOk(ttl: int, log: seq<Event>) {
    forall k :: 0 <= k < |log| && log[k].Missed? ==>
      LastKept(log[..k], log[k].digest).Some? ==>
        log[k].at >= LastKept(log[..k], log[k].digest).value.at + ttl
  }

  ghost predicate HitsOk(s: State) {
    && s.entries.Keys <= KeptDigests(s.log)
    && (forall d :: Live(s.ttl, s.log, d, s.now) ==> d in s.entries)
    && MissesOk(s.ttl, s.log)
  }

  lemma MissesAppended(ttl: int, log: seq<Event>, e: Event)
    requires MissesOk(ttl, log)
    requires e.Missed? && LastKept(log, e.digest).Some? ==> e.at >= LastKept(log, e.digest).value.at + ttl
    ensures MissesOk(ttl, log + [e])
  {
    hide LastKept;
    forall k | 0 <= k < |log + [e]| && (log + [e])[k].Missed?
      ensures var d := (log + [e])[k].digest;
              LastKept((log + [e])[..k], d).Some? ==> (log + [e])[k].at >= LastKept((log + [e])[..k], d).value.at + ttl
    {
      assert (log + [e])[..k] == log[..k];
      assert log[..|log|] == log;
    }
  }

  lemma DigestsSize(a: set<Digest>, b: set<Digest>)
    requires a <= b
    ensures |a| <= |b|
  {
    assert b == a + (b - a);
  }

  lemma HitsKept(s: State, a: Step)
    requires Inv(s) && HitsOk(s) && Enabled(s, a) && |KeptDigests(Do(s, a).log)| < s.max
    ensures HitsOk(Do(s, a))
  {
    hide Inv, LastKept, MissesOk, KeptDigests, Do;
    var t := Do(s, a);
    StepEntries(s, a);
    EntriesExpire(s);
    if a.Tick? {
    } else {
      var e := t.log[|s.log|];
      assert t.log == s.log + [e];
      KeptDigestsAppended(s.log, e);
      MissesAppended(s.ttl, s.log, e);
      if a.Store? { RoomForAll(s, a); }
      StillHeld(s, a, e);
    }
  }

  lemma EntriesExpire(s: State)
    requires Inv(s)
    ensures forall d :: d in s.entries ==>
              LastKept(s.log, d) == Some(Copy(s.entries[d].result, s.entries[d].expiresAt - s.ttl))
  {
    hide BreakerOk, LookupsOk, Justified, LastKept;
  }

  lemma StillHeld(s: State, a: Step, e: Event)
    requires Enabled(s, a) && !a.Tick? && EntriesStep(s, a, Do(s, a)) && Do(s, a).log == s.log + [e]
    requires Do(s, a).ttl == s.ttl && s.now <= Do(s, a).now
    requires forall d :: Live(s.ttl, s.log, d, s.now) ==> d in s.entries
    requires forall d :: d in s.entries ==>
               LastKept(s.log, d).Some? && LastKept(s.log, d).value.at == s.entries[d].expiresAt - s.ttl
    requires a.Store? ==> s.entries.Keys <= Do(s, a).entries.Keys
    ensures forall d :: Live(s.ttl, Do(s, a).log, d, Do(s, a).now) ==> d in Do(s, a).entries
  {
    hide LastKept, Do;
    var t := Do(s, a);
    forall d | Live(s.ttl, t.log, d, t.now) ensures d in t.entries {
      ReadAppended(s.log, e, d);
    }
  }

  /** With fewer digests than places a store gives nothing up. */
  lemma RoomForAll(s: State, a: Step)
    requires a.Store? && Enabled(s, a) && s.entries.Keys <= KeptDigests(s.log)
    requires |KeptDigests(Do(s, a).log)| < s.max
    ensures s.entries.Keys <= Do(s, a).entries.Keys
  {
    var t := Do(s, a);
    KeptDigestsAppended(s.log, t.log[|s.log|]);
    DigestsSize(s.entries.Keys, KeptDigests(t.log));
    assert |s.entries| == |s.entries.Keys|;
  }

  lemma {:induction false} HitsAlongRun(s: State, steps: seq<Step>, t: State)
    requires Inv(s) && HitsOk(s) && Run(s, steps, t) && |KeptDigests(t.log)| < s.max
    ensures HitsOk(t) && t.ttl == s.ttl
    decreases |steps|
  {
    hide Inv, HitsOk, Enabled, Do, KeptDigests;
    if steps == [] {
    } else {
      InvKept(s, steps[0]);
      DigestsAlongRun(Do(s, steps[0]), steps[1..], t);
      DigestsSize(KeptDigests(Do(s, steps[0]).log), KeptDigests(t.log));
      HitsKept(s, steps[0]);
      HitsAlongRun(Do(s, steps[0]), steps[1..], t);
    }
  }

  lemma {:induction false} DigestsAlongRun(s: State, steps: seq<Step>, t: State)
    requires Inv(s) && Run(s, steps, t)
    ensures KeptDigests(s.log) <= KeptDigests(t.log)
    decreases |steps|
  {
    hide Inv, Enabled, Do, KeptDigests, EntriesStep;
    if steps == [] {
    } else {
      var u := Do(s, steps[0]);
      InvKept(s, steps[0]);
      StepEntries(s, steps[0]);
      LogGrows(s, steps[0]);
      DigestsAlongRun(u, steps[1..], t);
    }
  }

  lemma LogGrows(s: State, a: Step)
    requires Enabled(s, a)
    ensures KeptDigests(s.log) <= KeptDigests(Do(s, a).log)
  {
    var t := Do(s, a);
    if !a.Tick? {
      assert t.log == s.log + [t.log[|s.log|]];
      KeptDigestsAppended(s.log, t.log[|s.log|]);
    }
  }

  /** As long as fewer digests were stored than the cache has places, every lookup of a stored
      result before its expiry is a hit: a miss finds nothing stored or something past its expiry. */
  lemma MissesExpired(ttl: int, max: nat, now: Time, steps: seq<Step>, t: State, k: nat)
    requires 0 < max && Run(Init(ttl, max, now), steps, t) && |KeptDigests(t.log)| < max
    requires k < |t.log| && t.log[k].Missed? && LastKept(t.log[..k], t.log[k].digest).Some?
    ensures t.log[k].at >= LastKept(t.log[..k], t.log[k].digest).value.at + ttl
  {
    hide Run, Inv, KeptDigests, LastKept;
    InitInv(ttl, max, now);
    InitHits(ttl, max, now);
    HitsAlongRun(Init(ttl, max, now), steps, t);
  }

  lemma InitHits(ttl: int, max: nat, now: Time)
    ensures HitsOk(Init(ttl, max, now))
  {
  }
}
