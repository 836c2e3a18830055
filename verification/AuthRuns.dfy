/** Lookups of `proxy/internal/auth/cache.go` that interleave.

    A lookup holds a lock only inside its critical sections, so between its check, the breaker,
    the call, the bookkeeping and the store other lookups and the eviction loop may run. The
    log records what happened; `Justified` says of every event why it could happen, in terms
    of the events before it, and the main results read a lookup's answer off it. */
module AuthRuns {
  import opened Options
  import opened AuthCaching

  /** A result and the time it was stored. */
  datatype Copy = Copy(result: AuthVerifyResult, at: Time)

  datatype Event =
    | Began(who: nat, digest: Digest)
    | Hit(who: nat, digest: Digest, result: AuthVerifyResult, at: Time, touched: Time)
    | Missed(who: nat, digest: Digest, seen: Option<Copy>, at: Time)
    | SawOpen(who: nat, at: Time)
    | SawClosed(who: nat, at: Time)
    | Replied(who: nat, digest: Digest, result: AuthVerifyResult)
    | CallFailed(who: nat)
    | Failed(who: nat, at: Time)
    | Succeeded(who: nat)
    | Kept(who: nat, digest: Digest, result: AuthVerifyResult, at: Time)
    | ServedStale(who: nat, digest: Digest, result: AuthVerifyResult, at: Time)
    | Refused(who: nat, digest: Digest, at: Time)
    | Swept(at: Time)

  /** What a lookup does next. */
  datatype Pc =
    | AtCheck(digest: Digest)
    | AtBreaker(digest: Digest, found: Option<CacheEntry>)
    | AtCall(digest: Digest, found: Option<CacheEntry>)
    | AtFailure(digest: Digest, found: Option<CacheEntry>)
    | AtStale(digest: Digest, found: Option<CacheEntry>)
    | AtSuccess(digest: Digest, result: AuthVerifyResult)
    | AtStore(digest: Digest, result: AuthVerifyResult)
    | Returned(digest: Digest, answer: Option<AuthVerifyResult>)

  datatype State = State(
    ttl: int,
    max: nat,
    now: Time,
    entries: Entries,
    fails: nat,
    openUntil: Time,
    lookups: map<nat, Pc>,
    log: seq<Event>)

  /** `wait` is the time that passes between two clock readings of one critical section. */
  datatype Step =
    | Begin(who: nat, digest: Digest)
    | Check(who: nat, wait: nat)
    | Breaker(who: nat)
    | Call(who: nat, reply: Option<AuthVerifyResult>)
    | Failure(who: nat)
    | Stale(who: nat)
    | Success(who: nat)
    | Store(who: nat, wait: nat, victim: Digest)
    | Sweep
    | Tick(wait: nat)

  function Init(ttl: int, max: nat, now: Time): State {
    State(ttl, max, now, map[], 0, 0, map[], [])
  }

  ghost predicate Enabled(s: State, a: Step) {
    match a
    case Begin(i, d) => i !in s.lookups && d != ""
    case Check(i, _) => i in s.lookups && s.lookups[i].AtCheck?
    case Breaker(i) => i in s.lookups && s.lookups[i].AtBreaker?
    case Call(i, _) => i in s.lookups && s.lookups[i].AtCall?
    case Failure(i) => i in s.lookups && s.lookups[i].AtFailure?
    case Stale(i) => i in s.lookups && s.lookups[i].AtStale?
    case Success(i) => i in s.lookups && s.lookups[i].AtSuccess?
    case Store(i, _, victim) => i in s.lookups && s.lookups[i].AtStore? && MayEvict(s.entries, s.max, s.now, victim)
    case Sweep => true
    case Tick(_) => true
  }

  function Copied(found: Option<CacheEntry>, ttl: int): Option<Copy> {
    if found.Some? then Some(Copy(found.value.result, found.value.expiresAt - ttl)) else None
  }

  function Do(s: State, a: Step): State
    requires Enabled(s, a)
  {
    match a
    case Begin(i, d) => s.(lookups := s.lookups[i := AtCheck(d)], log := s.log + [Began(i, d)])
    case Check(i, wait) =>
      var d := s.lookups[i].digest;
      var found := Find(s.entries, d);
      if found.Some? && Fresh(found.value, s.now) then
        s.(lookups := s.lookups[i := Returned(d, Some(found.value.result))],
           log := s.log + [Hit(i, d, found.value.result, s.now, s.now + wait)],
           entries := Touched(s.entries, d, s.now, s.now + wait), now := s.now + wait)
      else
        s.(lookups := s.lookups[i := AtBreaker(d, found)], log := s.log + [Missed(i, d, Copied(found, s.ttl), s.now)])
    case Breaker(i) =>
      var pc := s.lookups[i];
      if OpenAt(s.fails, s.openUntil, s.now) then
        s.(lookups := s.lookups[i := AtStale(pc.digest, pc.found)], log := s.log + [SawOpen(i, s.now)])
      else
        s.(lookups := s.lookups[i := AtCall(pc.digest, pc.found)], log := s.log + [SawClosed(i, s.now)])
    case Call(i, reply) =>
      var pc := s.lookups[i];
      if reply.Some? then
        s.(lookups := s.lookups[i := AtSuccess(pc.digest, reply.value)],
           log := s.log + [Replied(i, pc.digest, reply.value)])
      else
        s.(lookups := s.lookups[i := AtFailure(pc.digest, pc.found)], log := s.log + [CallFailed(i)])
    case Failure(i) =>
      var pc := s.lookups[i];
      s.(lookups := s.lookups[i := AtStale(pc.digest, pc.found)], log := s.log + [Failed(i, s.now)],
         fails := s.fails + 1, openUntil := if s.fails + 1 >= FAIL_THRESHOLD then s.now + COOLDOWN else s.openUntil)
    case Stale(i) =>
      var d := s.lookups[i].digest;
      var answer := StaleAnswer(s.lookups[i].found, s.now);
      s.(lookups := s.lookups[i := Returned(d, answer)],
         log := s.log + [if answer.Some? then ServedStale(i, d, answer.value, s.now) else Refused(i, d, s.now)])
    case Success(i) =>
      var pc := s.lookups[i];
      var next := if pc.result.valid then AtStore(pc.digest, pc.result) else Returned(pc.digest, Some(pc.result));
      s.(lookups := s.lookups[i := next],
         log := s.log + [Succeeded(i)], fails := 0, openUntil := if s.fails > 0 then 0 else s.openUntil)
    case Store(i, wait, victim) =>
      var pc := s.lookups[i];
      var used := s.now + wait;
      s.(lookups := s.lookups[i := Returned(pc.digest, Some(pc.result))],
         log := s.log + [Kept(i, pc.digest, pc.result, used)],
         entries := Stored(s.entries, s.max, s.now, victim, pc.digest, CacheEntry(pc.result, used + s.ttl, used)),
         now := used)
    case Sweep => s.(entries := Purged(s.entries, s.now), log := s.log + [Swept(s.now)])
    case Tick(wait) => s.(now := s.now + wait)
  }

  ghost predicate Run(s: State, steps: seq<Step>, t: State)
    decreases |steps|
  {
    if steps == [] then t == s
    else Enabled(s, steps[0]) && Run(Do(s, steps[0]), steps[1..], t)
  }

  // ---------------------------------------------------------------------
  // Reading the log
  // ---------------------------------------------------------------------

  /** Failures since the last success. */
  function TrailingFailures(log: seq<Event>): nat {
    if log == [] then 0
    else match log[|log| - 1]
      case Failed(_, _) => TrailingFailures(log[..|log| - 1]) + 1
      case Succeeded(_) => 0
      case _ => TrailingFailures(log[..|log| - 1])
  }

  function LastFailure(log: seq<Event>): Time {
    if log == [] then 0
    else match log[|log| - 1]
      case Failed(_, at) => at
      case _ => LastFailure(log[..|log| - 1])
  }

  predicate BreakerOpen(log: seq<Event>, now: Time) {
    TrailingFailures(log) >= 3 && now < LastFailure(log) + 30 * SECOND
  }

  /** The result most recently stored for a digest. */
  function LastKept(log: seq<Event>, d: Digest): Option<Copy> {
    if log == [] then None
    else match log[|log| - 1]
      case Kept(_, d', r, at) => if d' == d then Some(Copy(r, at)) else LastKept(log[..|log| - 1], d)
      case _ => LastKept(log[..|log| - 1], d)
  }

  ghost predicate CalledService(log: seq<Event>, i: nat) {
    exists at :: SawClosed(i, at) in log
  }

  /** A lookup may fall back on a stale entry only if it saw the breaker open or its call failed. */
  ghost predicate ServiceDown(log: seq<Event>, i: nat) {
    (exists at :: SawOpen(i, at) in log) || (exists at :: Failed(i, at) in log)
  }

  ghost predicate SawMiss(log: seq<Event>, i: nat, d: Digest, seen: Option<Copy>) {
    exists at :: Missed(i, d, seen, at) in log
  }

  /** Why an event could happen after `log`. */
  ghost predicate Ok(ttl: int, log: seq<Event>, e: Event) {
    match e
    case Hit(_, d, r, at, touched) =>
      && r.valid && at <= touched && LastKept(log, d).Some? && LastKept(log, d).value.result == r
      && at < LastKept(log, d).value.at + ttl
    case Missed(_, d, seen, at) =>
      seen.Some? ==> seen == LastKept(log, d) && seen.value.result.valid && at >= seen.value.at + ttl
    case SawOpen(_, at) => BreakerOpen(log, at)
    case SawClosed(_, at) => !BreakerOpen(log, at)
    case Failed(i, _) => CallFailed(i) in log && CalledService(log, i)
    case Succeeded(i) => CalledService(log, i)
    case Kept(i, d, r, _) => r.valid && Replied(i, d, r) in log
    case ServedStale(i, d, r, at) =>
      && r.valid && ServiceDown(log, i)
      && exists v :: SawMiss(log, i, d, Some(Copy(r, v))) && v + ttl <= at < v + ttl + 300 * SECOND
    case Refused(i, d, at) =>
      && ServiceDown(log, i)
      && exists seen :: SawMiss(log, i, d, seen) && (seen.None? || at >= seen.value.at + ttl + 300 * SECOND)
    case _ => true
  }

  ghost predicate Justified(ttl: int, log: seq<Event>) {
    log == [] || (Justified(ttl, log[..|log| - 1]) && Ok(ttl, log[..|log| - 1], log[|log| - 1]))
  }

  /** Where a returned answer comes from. */
  ghost predicate Sourced(log: seq<Event>, i: nat, d: Digest, answer: Option<AuthVerifyResult>) {
    if answer.None? then exists at :: Refused(i, d, at) in log
    else || (exists at, touched :: Hit(i, d, answer.value, at, touched) in log)
         || (exists at :: ServedStale(i, d, answer.value, at) in log)
         || (Replied(i, d, answer.value) in log
             && (answer.value.valid ==> exists at :: Kept(i, d, answer.value, at) in log))
  }

  // ---------------------------------------------------------------------
  // The invariant, part by part
  // ---------------------------------------------------------------------

  predicate BreakerOk(log: seq<Event>, fails: nat, openUntil: Time) {
    && fails == TrailingFailures(log)
    && (fails >= FAIL_THRESHOLD ==> openUntil == LastFailure(log) + COOLDOWN)
  }

  ghost predicate EntriesOk(ttl: int, log: seq<Event>, entries: Entries) {
    forall d :: d in entries ==>
      entries[d].result.valid && LastKept(log, d) == Some(Copy(entries[d].result, entries[d].expiresAt - ttl))
  }

  ghost predicate FoundOk(ttl: int, now: Time, log: seq<Event>, i: nat, d: Digest, found: Option<CacheEntry>) {
    && SawMiss(log, i, d, Copied(found, ttl))
    && (found.Some? ==> found.value.result.valid && now >= found.value.expiresAt)
  }

  ghost predicate PcOk(ttl: int, now: Time, log: seq<Event>, i: nat, pc: Pc) {
    match pc
    case AtCheck(_) => true
    case AtBreaker(d, found) => FoundOk(ttl, now, log, i, d, found)
    case AtCall(d, found) => FoundOk(ttl, now, log, i, d, found) && CalledService(log, i)
    case AtFailure(d, found) => FoundOk(ttl, now, log, i, d, found) && CalledService(log, i) && CallFailed(i) in log
    case AtStale(d, found) => FoundOk(ttl, now, log, i, d, found) && ServiceDown(log, i)
    case AtSuccess(d, r) => Replied(i, d, r) in log && CalledService(log, i)
    case AtStore(d, r) => r.valid && Replied(i, d, r) in log
    case Returned(d, answer) => Sourced(log, i, d, answer)
  }

  ghost predicate LookupsOk(ttl: int, now: Time, log: seq<Event>, lookups: map<nat, Pc>) {
    forall i :: i in lookups ==> PcOk(ttl, now, log, i, lookups[i])
  }

  ghost predicate Inv(s: State) {
    && 0 < s.max && |s.entries| <= s.max
    && BreakerOk(s.log, s.fails, s.openUntil)
    && EntriesOk(s.ttl, s.log, s.entries)
    && LookupsOk(s.ttl, s.now, s.log, s.lookups)
    && Justified(s.ttl, s.log)
  }

  // ---------------------------------------------------------------------
  // Appending one event
  // ---------------------------------------------------------------------

  lemma ReadAppended(log: seq<Event>, e: Event, d: Digest)
    ensures TrailingFailures(log + [e])
            == if e.Failed? then TrailingFailures(log) + 1 else if e.Succeeded? then 0 else TrailingFailures(log)
    ensures LastFailure(log + [e]) == if e.Failed? then e.at else LastFailure(log)
    ensures LastKept(log + [e], d) == if e.Kept? && e.digest == d then Some(Copy(e.result, e.at)) else LastKept(log, d)
  {
  }

  lemma JustifiedAppended(ttl: int, log: seq<Event>, e: Event)
    requires Justified(ttl, log) && Ok(ttl, log, e)
    ensures Justified(ttl, log + [e])
  {
  }

  lemma BreakerAppended(log: seq<Event>, e: Event, fails: nat, openUntil: Time)
    requires BreakerOk(log, fails, openUntil) && !e.Failed? && !e.Succeeded?
    ensures BreakerOk(log + [e], fails, openUntil)
  {
  }

  lemma EntriesAppended(ttl: int, log: seq<Event>, e: Event, entries: Entries)
    requires EntriesOk(ttl, log, entries) && !e.Kept?
    ensures EntriesOk(ttl, log + [e], entries)
  {
  }

  lemma FoundAppended(ttl: int, now: Time, log: seq<Event>, now': Time, e: Event, i: nat, d: Digest,
                      found: Option<CacheEntry>)
    requires FoundOk(ttl, now, log, i, d, found) && now <= now'
    ensures FoundOk(ttl, now', log + [e], i, d, found)
  {
  }

  lemma ServiceAppended(log: seq<Event>, e: Event, i: nat)
    ensures CalledService(log, i) ==> CalledService(log + [e], i)
    ensures ServiceDown(log, i) ==> ServiceDown(log + [e], i)
    ensures forall x :: x in log ==> x in log + [e]
  {
  }

  /** One lookup moves and one event is recorded. */
  lemma LookupsAppended(ttl: int, now: Time, log: seq<Event>, lookups: map<nat, Pc>, now': Time, e: Event, i: nat,
                        pc: Pc)
    requires LookupsOk(ttl, now, log, lookups) && now <= now'
    requires PcOk(ttl, now', log + [e], i, pc)
    ensures LookupsOk(ttl, now', log + [e], lookups[i := pc])
    ensures LookupsOk(ttl, now', log + [e], lookups)
  {
  }

  // ---------------------------------------------------------------------
  // Preservation, step by step
  // ---------------------------------------------------------------------

  /** A step that stores nothing and leaves the breaker alone. */
  lemma QuietStep(s: State, t: State, i: nat, pc: Pc, e: Event)
    requires Inv(s) && Ok(s.ttl, s.log, e) && !e.Failed? && !e.Succeeded? && !e.Kept?
    requires t.ttl == s.ttl && t.max == s.max && t.fails == s.fails && t.openUntil == s.openUntil
             && t.entries == s.entries
    requires t.log == s.log + [e] && t.lookups == s.lookups[i := pc] && t.now == s.now
    requires PcOk(s.ttl, s.now, s.log + [e], i, pc)
    ensures Inv(t)
  {
    hide BreakerOk, EntriesOk, LookupsOk, Justified, Ok, PcOk;
    JustifiedAppended(s.ttl, s.log, e);
    BreakerAppended(s.log, e, s.fails, s.openUntil);
    EntriesAppended(s.ttl, s.log, e, s.entries);
    LookupsAppended(s.ttl, s.now, s.log, s.lookups, s.now, e, i, pc);
  }

  lemma BeginKept(s: State, i: nat, d: Digest)
    requires Inv(s) && Enabled(s, Begin(i, d))
    ensures Inv(Do(s, Begin(i, d)))
  {
    hide Inv;
    QuietStep(s, Do(s, Begin(i, d)), i, AtCheck(d), Began(i, d));
  }

  lemma {:induction false} CheckKept(s: State, i: nat, wait: nat)
    requires Inv(s) && Enabled(s, Check(i, wait))
    ensures Inv(Do(s, Check(i, wait)))
  {
    var d := s.lookups[i].digest;
    var found := Find(s.entries, d);
    if found.Some? && Fresh(found.value, s.now) {
      HitKept(s, i, wait);
    } else {
      var e := Missed(i, d, Copied(found, s.ttl), s.now);
      assert Ok(s.ttl, s.log, e);
      assert e in s.log + [e];
      assert FoundOk(s.ttl, s.now, s.log + [e], i, d, found);
      QuietStep(s, Do(s, Check(i, wait)), i, AtBreaker(d, found), e);
    }
  }

  lemma HitKept(s: State, i: nat, wait: nat)
    requires Inv(s) && Enabled(s, Check(i, wait))
    requires var d := s.lookups[i].digest; d in s.entries && Fresh(s.entries[d], s.now)
    ensures Inv(Do(s, Check(i, wait)))
  {
    hide BreakerOk, LookupsOk, Justified, LastKept;
    var d := s.lookups[i].digest;
    var t := Do(s, Check(i, wait));
    var e := Hit(i, d, s.entries[d].result, s.now, s.now + wait);
    assert e in s.log + [e];
    assert Ok(s.ttl, s.log, e);
    JustifiedAppended(s.ttl, s.log, e);
    BreakerAppended(s.log, e, s.fails, s.openUntil);
    LookupsAppended(s.ttl, s.now, s.log, s.lookups, t.now, e, i, Returned(d, Some(e.result)));
    EntriesAppended(s.ttl, s.log, e, s.entries);
    assert t.entries.Keys == s.entries.Keys;
    SubmapSize(s.entries, t.entries);
  }

  lemma BreakerKept(s: State, i: nat)
    requires Inv(s) && Enabled(s, Breaker(i))
    ensures Inv(Do(s, Breaker(i)))
  {
    hide EntriesOk, Justified, TrailingFailures, LastFailure;
    var pc := s.lookups[i];
    var open := OpenAt(s.fails, s.openUntil, s.now);
    var e := if open then SawOpen(i, s.now) else SawClosed(i, s.now);
    FoundAppended(s.ttl, s.now, s.log, s.now, e, i, pc.digest, pc.found);
    assert e in s.log + [e];
    QuietStep(s, Do(s, Breaker(i)), i, if open then AtStale(pc.digest, pc.found) else AtCall(pc.digest, pc.found), e);
  }

  lemma CallKept(s: State, i: nat, reply: Option<AuthVerifyResult>)
    requires Inv(s) && Enabled(s, Call(i, reply))
    ensures Inv(Do(s, Call(i, reply)))
  {
    hide EntriesOk, Justified, BreakerOk, FoundOk, CalledService;
    var pc := s.lookups[i];
    var e := if reply.Some? then Replied(i, pc.digest, reply.value) else CallFailed(i);
    FoundAppended(s.ttl, s.now, s.log, s.now, e, i, pc.digest, pc.found);
    ServiceAppended(s.log, e, i);
    assert e in s.log + [e];
    QuietStep(s, Do(s, Call(i, reply)), i,
              if reply.Some? then AtSuccess(pc.digest, reply.value) else AtFailure(pc.digest, pc.found), e);
  }

  lemma StaleKept(s: State, i: nat)
    requires Inv(s) && Enabled(s, Stale(i))
    ensures Inv(Do(s, Stale(i)))
  {
    hide EntriesOk, Justified, BreakerOk, ServiceDown, SawMiss;
    var pc := s.lookups[i];
    var answer := StaleAnswer(pc.found, s.now);
    var e := if answer.Some? then ServedStale(i, pc.digest, answer.value, s.now) else Refused(i, pc.digest, s.now);
    StaleOk(s.ttl, s.now, s.log, i, pc.digest, pc.found);
    assert e in s.log + [e];
    QuietStep(s, Do(s, Stale(i)), i, Returned(pc.digest, answer), e);
  }

  /** The fallback answers exactly when the entry it saw is valid and less than five minutes stale. */
  lemma StaleOk(ttl: int, now: Time, log: seq<Event>, i: nat, d: Digest, found: Option<CacheEntry>)
    requires FoundOk(ttl, now, log, i, d, found) && ServiceDown(log, i)
    ensures var answer := StaleAnswer(found, now);
            Ok(ttl, log, if answer.Some? then ServedStale(i, d, answer.value, now) else Refused(i, d, now))
  {
  }

  lemma FailureKept(s: State, i: nat)
    requires Inv(s) && Enabled(s, Failure(i))
    ensures Inv(Do(s, Failure(i)))
  {
    hide EntriesOk, Justified, TrailingFailures, LastFailure;
    var pc := s.lookups[i];
    var e := Failed(i, s.now);
    FoundAppended(s.ttl, s.now, s.log, s.now, e, i, pc.digest, pc.found);
    ReadAppended(s.log, e, "");
    assert e in s.log + [e];
    JustifiedAppended(s.ttl, s.log, e);
    EntriesAppended(s.ttl, s.log, e, s.entries);
    LookupsAppended(s.ttl, s.now, s.log, s.lookups, s.now, e, i, AtStale(pc.digest, pc.found));
  }

  lemma SuccessKept(s: State, i: nat)
    requires Inv(s) && Enabled(s, Success(i))
    ensures Inv(Do(s, Success(i)))
  {
    hide EntriesOk, Justified, TrailingFailures, LastFailure;
    var pc := s.lookups[i];
    var e := Succeeded(i);
    ReadAppended(s.log, e, "");
    ServiceAppended(s.log, e, i);
    JustifiedAppended(s.ttl, s.log, e);
    EntriesAppended(s.ttl, s.log, e, s.entries);
    LookupsAppended(s.ttl, s.now, s.log, s.lookups, s.now, e, i,
                    if pc.result.valid then AtStore(pc.digest, pc.result) else Returned(pc.digest, Some(pc.result)));
  }

  lemma StoreKept(s: State, i: nat, wait: nat, victim: Digest)
    requires Inv(s) && Enabled(s, Store(i, wait, victim))
    ensures Inv(Do(s, Store(i, wait, victim)))
  {
    hide BreakerOk, LookupsOk, Justified, LastKept, MadeRoom, Stored, MayEvict;
    var pc := s.lookups[i];
    var t := Do(s, Store(i, wait, victim));
    var e := Kept(i, pc.digest, pc.result, t.now);
    var entry := CacheEntry(pc.result, t.now + s.ttl, t.now);
    StoreAnswers(s, i);
    StoreKeepsRest(s.entries, s.max, s.now, victim, pc.digest, entry);
    EntriesStored(s.ttl, s.log, s.entries, t.entries, e);
    JustifiedAppended(s.ttl, s.log, e);
    BreakerAppended(s.log, e, s.fails, s.openUntil);
    ServiceAppended(s.log, e, i);
    assert e in s.log + [e];
    LookupsAppended(s.ttl, s.now, s.log, s.lookups, t.now, e, i, Returned(pc.digest, Some(pc.result)));
  }

  lemma StoreAnswers(s: State, i: nat)
    requires Inv(s) && i in s.lookups && s.lookups[i].AtStore?
    ensures var pc := s.lookups[i]; pc.result.valid && Replied(i, pc.digest, pc.result) in s.log
  {
  }

  lemma EntriesStored(ttl: int, log: seq<Event>, m: Entries, n: Entries, e: Event)
    requires EntriesOk(ttl, log, m) && e.Kept? && e.result.valid
    requires e.digest in n && n[e.digest] == CacheEntry(e.result, e.at + ttl, e.at)
    requires forall k :: k in n && k != e.digest ==> k in m && n[k] == m[k]
    ensures EntriesOk(ttl, log + [e], n)
  {
  }

  lemma SweepKept(s: State)
    requires Inv(s)
    ensures Inv(Do(s, Sweep))
  {
    hide BreakerOk, LookupsOk, Justified, LastKept;
    var t := Do(s, Sweep);
    var e := Swept(s.now);
    JustifiedAppended(s.ttl, s.log, e);
    BreakerAppended(s.log, e, s.fails, s.openUntil);
    EntriesAppended(s.ttl, s.log, e, s.entries);
    SubmapSize(s.entries, t.entries);
    LookupsLater(s.ttl, s.now, s.log, s.lookups, s.now, [e]);
  }

  lemma LookupsLater(ttl: int, now: Time, log: seq<Event>, lookups: map<nat, Pc>, now': Time, more: seq<Event>)
    requires LookupsOk(ttl, now, log, lookups) && now <= now' && |more| <= 1
    ensures LookupsOk(ttl, now', log + more, lookups)
  {
  }

  lemma InvKept(s: State, a: Step)
    requires Inv(s) && Enabled(s, a)
    ensures Inv(Do(s, a)) && Do(s, a).ttl == s.ttl && Do(s, a).max == s.max
  {
    match a
    case Begin(i, d) => hide Inv; BeginKept(s, i, d);
    case Check(i, wait) => hide Inv; CheckKept(s, i, wait);
    case Breaker(i) => hide Inv; BreakerKept(s, i);
    case Call(i, reply) => hide Inv; CallKept(s, i, reply);
    case Failure(i) => hide Inv; FailureKept(s, i);
    case Stale(i) => hide Inv; StaleKept(s, i);
    case Success(i) => hide Inv; SuccessKept(s, i);
    case Store(i, wait, victim) => hide Inv; StoreKept(s, i, wait, victim);
    case Sweep => hide Inv; SweepKept(s);
    case Tick(wait) =>
      hide BreakerOk, EntriesOk, Justified, LookupsOk;
      LookupsLater(s.ttl, s.now, s.log, s.lookups, s.now + wait, []);
      assert s.log + [] == s.log;
  }

  lemma InitInv(ttl: int, max: nat, now: Time)
    requires 0 < max
    ensures Inv(Init(ttl, max, now))
  {
  }

  lemma {:induction false} InvAlongRun(s: State, steps: seq<Step>, t: State)
    requires Inv(s) && Run(s, steps, t)
    ensures Inv(t) && t.ttl == s.ttl && t.max == s.max
    decreases |steps|
  {
    hide Inv, Enabled, Do;
    if steps == [] {
    } else {
      InvKept(s, steps[0]);
      InvAlongRun(Do(s, steps[0]), steps[1..], t);
    }
  }

  lemma {:induction false} JustifiedAt(ttl: int, log: seq<Event>, k: nat)
    requires Justified(ttl, log) && k < |log|
    ensures Ok(ttl, log[..k], log[k])
    decreases |log|
  {
    hide Ok;
    var n := |log| - 1;
    if k < n {
      JustifiedAt(ttl, log[..n], k);
      assert log[..n][..k] == log[..k];
    }
  }

  // ---------------------------------------------------------------------
  // Every run
  // ---------------------------------------------------------------------

  /** In every run every event has its reason. */
  lemma EveryEventJustified(ttl: int, max: nat, now: Time, steps: seq<Step>, t: State, k: nat)
    requires 0 < max && Run(Init(ttl, max, now), steps, t) && k < |t.log|
    ensures Ok(ttl, t.log[..k], t.log[k])
  {
    hide Run, Ok;
    InitInv(ttl, max, now);
    InvAlongRun(Init(ttl, max, now), steps, t);
    JustifiedAt(ttl, t.log, k);
  }

  lemma {:induction false} LastKeptIsKept(log: seq<Event>, d: Digest)
    requires LastKept(log, d).Some?
    ensures exists i :: Kept(i, d, LastKept(log, d).value.result, LastKept(log, d).value.at) in log
  {
    var n := |log| - 1;
    if log[n].Kept? && log[n].digest == d {
      assert Kept(log[n].who, d, log[n].result, log[n].at) in log;
    } else {
      LastKeptIsKept(log[..n], d);
      assert forall x :: x in log[..n] ==> x in log;
    }
  }

  /** What a returned answer may be: the service's own reply to this lookup; or a valid result
      that was stored for this digest at some time v and is used before v + ttl, or before
      v + ttl + 5 minutes if this lookup saw the breaker open or its call failed. */
  ghost predicate Bounded(ttl: int, log: seq<Event>, i: nat, d: Digest, r: AuthVerifyResult) {
    || Replied(i, d, r) in log
    || (r.valid && exists v, j, at, touched ::
          Kept(j, d, r, v) in log && Hit(i, d, r, at, touched) in log && at < v + ttl)
    || (r.valid && ServiceDown(log, i)
        && exists v, j, at :: Kept(j, d, r, v) in log && ServedStale(i, d, r, at) in log
            && v + ttl <= at < v + ttl + 300 * SECOND)
  }

  lemma HitIsBounded(ttl: int, log: seq<Event>, k: nat)
    requires Justified(ttl, log) && k < |log| && log[k].Hit?
    ensures Bounded(ttl, log, log[k].who, log[k].digest, log[k].result)
  {
    hide Justified, LastKept, ServiceDown;
    var e := log[k];
    JustifiedAt(ttl, log, k);
    LastKeptIsKept(log[..k], e.digest);
    var v := LastKept(log[..k], e.digest).value.at;
    var j :| Kept(j, e.digest, e.result, v) in log[..k];
    assert Kept(j, e.digest, e.result, v) in log && e in log;
  }

  lemma {:induction false} MissIsKept(ttl: int, log: seq<Event>, i: nat, d: Digest, c: Copy)
    requires Justified(ttl, log) && SawMiss(log, i, d, Some(c))
    ensures exists j :: Kept(j, d, c.result, c.at) in log
  {
    hide Justified, LastKept;
    var at :| Missed(i, d, Some(c), at) in log;
    var k :| 0 <= k < |log| && log[k] == Missed(i, d, Some(c), at);
    JustifiedAt(ttl, log, k);
    LastKeptIsKept(log[..k], d);
    var j :| Kept(j, d, c.result, c.at) in log[..k];
    assert Kept(j, d, c.result, c.at) in log;
  }

  lemma StaleIsBounded(ttl: int, log: seq<Event>, k: nat)
    requires Justified(ttl, log) && k < |log| && log[k].ServedStale?
    ensures Bounded(ttl, log, log[k].who, log[k].digest, log[k].result)
  {
    hide Justified;
    var e := log[k];
    JustifiedAt(ttl, log, k);
    assert forall x :: x in log[..k] ==> x in log;
    var v :| SawMiss(log[..k], e.who, e.digest, Some(Copy(e.result, v))) && v + ttl <= e.at < v + ttl + MAX_STALE;
    MissIsKept(ttl, log, e.who, e.digest, Copy(e.result, v));
    var j :| Kept(j, e.digest, e.result, v) in log;
    assert e in log;
  }

  /** Bounded staleness, over every interleaving of lookups, stores and sweeps. */
  lemma BoundedStaleness(ttl: int, max: nat, now: Time, steps: seq<Step>, t: State, i: nat)
    requires 0 < max && Run(Init(ttl, max, now), steps, t)
    requires i in t.lookups && t.lookups[i].Returned? && t.lookups[i].answer.Some?
    ensures Bounded(ttl, t.log, i, t.lookups[i].digest, t.lookups[i].answer.value)
  {
    hide Run, Bounded, Justified;
    InitInv(ttl, max, now);
    InvAlongRun(Init(ttl, max, now), steps, t);
    var d, r := t.lookups[i].digest, t.lookups[i].answer.value;
    assert Sourced(t.log, i, d, Some(r));
    if at, touched :| Hit(i, d, r, at, touched) in t.log {
      var k :| 0 <= k < |t.log| && t.log[k] == Hit(i, d, r, at, touched);
      HitIsBounded(ttl, t.log, k);
    } else if at :| ServedStale(i, d, r, at) in t.log {
      var k :| 0 <= k < |t.log| && t.log[k] == ServedStale(i, d, r, at);
      StaleIsBounded(ttl, t.log, k);
    } else {
      ReplyIsBounded(ttl, t.log, i, d, r);
    }
  }

  lemma ReplyIsBounded(ttl: int, log: seq<Event>, i: nat, d: Digest, r: AuthVerifyResult)
    requires Replied(i, d, r) in log
    ensures Bounded(ttl, log, i, d, r)
  {
  }

  /** The map never exceeds its capacity, holds valid results only, and each entry is the result
      most recently stored for its digest. */
  lemma CacheHoldsLatest(ttl: int, max: nat, now: Time, steps: seq<Step>, t: State)
    requires 0 < max && Run(Init(ttl, max, now), steps, t)
    ensures |t.entries| <= max
    ensures forall d :: d in t.entries ==>
              t.entries[d].result.valid && LastKept(t.log, d)
                  == Some(Copy(t.entries[d].result, t.entries[d].expiresAt - ttl))
  {
    hide Run;
    InitInv(ttl, max, now);
    InvAlongRun(Init(ttl, max, now), steps, t);
  }

  /** The breaker's fields are a summary of the history, in every interleaving. */
  lemma BreakerRefinesHistory(ttl: int, max: nat, now: Time, steps: seq<Step>, t: State, at: Time)
    requires 0 < max && Run(Init(ttl, max, now), steps, t)
    ensures t.fails == TrailingFailures(t.log)
    ensures OpenAt(t.fails, t.openUntil, at) <==> BreakerOpen(t.log, at)
  {
    hide Run;
    InitInv(ttl, max, now);
    InvAlongRun(Init(ttl, max, now), steps, t);
  }

  // ---------------------------------------------------------------------
  // One lookup at a time
  // ---------------------------------------------------------------------

  predicate Active(s: State, i: nat) {
    i in s.lookups && !s.lookups[i].Returned?
  }

  /** A run in which a lookup begins only when every earlier one has returned. */
  ghost predicate OneByOne(s: State, steps: seq<Step>, t: State)
    decreases |steps|
  {
    if steps == [] then t == s
    else
      && Enabled(s, steps[0])
      && (steps[0].Begin? ==> forall i :: !Active(s, i))
      && OneByOne(Do(s, steps[0]), steps[1..], t)
  }

  /** Every failure after the third in a row comes at least the cool-down after the one before. */
  predicate Spaced(log: seq<Event>) {
    log == [] || (
      var before, e := log[..|log| - 1], log[|log| - 1];
      && Spaced(before)
      && (e.Failed? && TrailingFailures(before) >= 3 ==> e.at >= LastFailure(before) + 30 * SECOND))
  }

  ghost predicate Calm(s: State) {
    && Spaced(s.log)
    && (forall i, j :: Active(s, i) && Active(s, j) ==> i == j)
    && (forall i :: Active(s, i) && (s.lookups[i].AtCall? || s.lookups[i].AtFailure?) ==>
          !OpenAt(s.fails, s.openUntil, s.now))
  }

  lemma SpacedAppended(log: seq<Event>, e: Event)
    requires Spaced(log) && (e.Failed? && TrailingFailures(log) >= 3 ==> e.at >= LastFailure(log) + 30 * SECOND)
    ensures Spaced(log + [e])
  {
  }

  lemma {:induction false} CalmKept(s: State, a: Step)
    requires Inv(s) && Calm(s) && Enabled(s, a) && (a.Begin? ==> forall i :: !Active(s, i))
    ensures Calm(Do(s, a))
  {
    var t := Do(s, a);
    SpacedKept(s, a);
    AloneKept(s, a);
  }

  lemma SpacedKept(s: State, a: Step)
    requires Inv(s) && Calm(s) && Enabled(s, a)
    ensures Spaced(Do(s, a).log)
  {
    hide Spaced, EntriesOk, LookupsOk, Justified, TrailingFailures, LastFailure;
    var t := Do(s, a);
    if !a.Tick? {
      var e := t.log[|s.log|];
      assert t.log == s.log + [e];
      if e.Failed? { assert Active(s, a.who); }
      SpacedAppended(s.log, e);
    }
  }

  lemma AloneKept(s: State, a: Step)
    requires Calm(s) && Enabled(s, a) && (a.Begin? ==> forall i :: !Active(s, i))
    ensures var t := Do(s, a);
            && (forall i, j :: Active(t, i) && Active(t, j) ==> i == j)
            && (forall i :: Active(t, i) && (t.lookups[i].AtCall? || t.lookups[i].AtFailure?) ==>
                  !OpenAt(t.fails, t.openUntil, t.now))
  {
    hide Spaced;
    var t := Do(s, a);
    forall i | Active(t, i)
      ensures !a.Begin? ==> Active(s, i)
      ensures a.Begin? ==> i == a.who
      ensures t.lookups[i].AtCall? || t.lookups[i].AtFailure? ==> !OpenAt(t.fails, t.openUntil, t.now)
    {
      assert Active(s, i) || a.Begin?;
      if !a.Begin? && !a.Sweep? && !a.Tick? { assert Active(s, a.who); }
    }
  }

  lemma {:induction false} CalmAlongRun(s: State, steps: seq<Step>, t: State)
    requires Inv(s) && Calm(s) && OneByOne(s, steps, t)
    ensures Calm(t)
    decreases |steps|
  {
    hide Inv, Calm, Enabled, Do;
    if steps == [] {
    } else {
      InvKept(s, steps[0]);
      CalmKept(s, steps[0]);
      CalmAlongRun(Do(s, steps[0]), steps[1..], t);
    }
  }

  lemma {:induction false} SpacedAt(log: seq<Event>, k: nat)
    requires Spaced(log) && k < |log| && log[k].Failed? && TrailingFailures(log[..k]) >= 3
    ensures log[k].at >= LastFailure(log[..k]) + 30 * SECOND
    decreases |log|
  {
    hide TrailingFailures, LastFailure;
    var n := |log| - 1;
    if k < n {
      assert log[..n][..k] == log[..k];
      SpacedAt(log[..n], k);
    }
  }

  /** When lookups run one at a time, a failed call that follows three or more failures in a row
      comes at least 30 seconds after the last of them. */
  lemma FailuresSpaced(ttl: int, max: nat, now: Time, steps: seq<Step>, t: State, k: nat)
    requires 0 < max && OneByOne(Init(ttl, max, now), steps, t)
    requires k < |t.log| && t.log[k].Failed? && TrailingFailures(t.log[..k]) >= 3
    ensures t.log[k].at >= LastFailure(t.log[..k]) + 30 * SECOND
  {
    hide OneByOne, TrailingFailures, LastFailure;
    var s := Init(ttl, max, now);
    InitInv(ttl, max, now);
    CalmAlongRun(s, steps, t);
    SpacedAt(t.log, k);
  }

  // ---------------------------------------------------------------------
  // The object as a run
  // ---------------------------------------------------------------------

  function Shares(s: State): Shared {
    Saw(s.entries, s.fails, s.openUntil, s.ttl, s.max)
  }

  /** The readings of one lookup do not go back. */
  predicate Ordered(now: Time, at: Readings) {
    now <= at.check <= at.touch <= at.breaker <= at.failure <= at.stale && at.breaker <= at.purge <= at.store
  }

  lemma {:induction false} Extend(s: State, steps: seq<Step>, t: State, a: Step)
    requires Run(s, steps, t) && Enabled(t, a)
    ensures Run(s, steps + [a], Do(t, a))
    decreases |steps|
  {
    hide Enabled, Do;
    if steps == [] {
      assert Run(Do(s, a), [], Do(t, a));
      assert ([] + [a])[1..] == [];
    } else {
      Extend(Do(s, steps[0]), steps[1..], t, a);
      assert (steps + [a])[1..] == steps[1..] + [a];
    }
  }

  /** Time passes, then a step is taken. */
  lemma Later(s: State, steps: seq<Step>, t: State, at: Time, a: Step) returns (more: seq<Step>)
    requires Run(s, steps, t) && t.now <= at && Enabled(t.(now := at), a)
    ensures Run(s, more, Do(t.(now := at), a))
  {
    hide Run;
    Extend(s, steps, t, Tick(at - t.now));
    assert Do(t, Tick(at - t.now)) == t.(now := at);
    Extend(s, steps + [Tick(at - t.now)], t.(now := at), a);
    more := steps + [Tick(at - t.now)] + [a];
  }

  /** Only lookup `i` may differ. */
  predicate OthersSame(s: State, t: State, i: nat) {
    forall j :: j in s.lookups && j != i ==> j in t.lookups && t.lookups[j] == s.lookups[j]
  }

  /** From the call on: the reply is stored, or the failure counted and the entry it saw used. */
  lemma CallToReturn(s: State, before: seq<Step>, u: State, i: nat, reply: Option<AuthVerifyResult>, at: Readings,
                     victim: Digest)
    returns (steps: seq<Step>, t: State)
    requires Run(s, before, u) && i in u.lookups && u.lookups[i].AtCall? && u.now == at.breaker && Ordered(at.check, at)
    requires MayEvict(u.entries, u.max, at.purge, victim)
    ensures Run(s, steps, t) && OthersSame(u, t, i) && t.ttl == u.ttl && t.max == u.max
    ensures i in t.lookups
    ensures t.lookups[i]
            == Returned(u.lookups[i].digest, if reply.None? then StaleAnswer(u.lookups[i].found, at.stale) else reply)
    ensures t.fails == if reply.None? then u.fails + 1 else 0
    ensures t.openUntil == if reply.None? then
                             if u.fails + 1 >= FAIL_THRESHOLD then at.failure + COOLDOWN else u.openUntil
                           else if u.fails > 0 then 0 else u.openUntil
    ensures t.entries == if reply.Some? && reply.value.valid
                         then Stored(u.entries, u.max, at.purge, victim, u.lookups[i].digest,
                             CacheEntry(reply.value, at.store + u.ttl, at.store))
                         else u.entries
  {
    hide Run, Stored, MayEvict, StaleAnswer;
    steps := Later(s, before, u, at.breaker, Call(i, reply));
    t := Do(u, Call(i, reply));
    if reply.None? {
      steps := Later(s, steps, t, at.failure, Failure(i));
      t := Do(t.(now := at.failure), Failure(i));
      steps := Later(s, steps, t, at.stale, Stale(i));
      t := Do(t.(now := at.stale), Stale(i));
      return;
    }
    steps := Later(s, steps, t, at.breaker, Success(i));
    t := Do(t, Success(i));
    if reply.value.valid {
      steps := Later(s, steps, t, at.purge, Store(i, at.store - at.purge, victim));
      t := Do(t.(now := at.purge), Store(i, at.store - at.purge, victim));
    }
  }

  /** Up to the check: a hit returns, a miss goes on with what it saw. */
  lemma BeginToCheck(s: State, i: nat, d: Digest, at: Readings) returns (steps: seq<Step>, t: State)
    requires i !in s.lookups && d != "" && Ordered(s.now, at)
    ensures Run(s, steps, t) && OthersSame(s, t, i) && i in t.lookups && t.now <= at.touch
    ensures Shares(t) == Shares(s).(entries := Touched(s.entries, d, at.check, at.touch))
    ensures var found := Find(s.entries, d);
            t.lookups[i] == if found.Some? && Fresh(found.value, at.check) then Returned(d, Some(found.value.result))
                else AtBreaker(d, found)
    ensures t.lookups[i].AtBreaker? ==> t.entries == s.entries
  {
    hide Run;
    EmptyRun(s);
    steps := Later(s, [], s, s.now, Begin(i, d));
    t := Do(s, Begin(i, d));
    steps := Later(s, steps, t, at.check, Check(i, at.touch - at.check));
    t := Do(t.(now := at.check), Check(i, at.touch - at.check));
  }

  /** Whatever the object's `Lookup` does is a run of interleaved steps in which only this lookup
      moves, so every result about all runs holds of it. */
  lemma LookupIsARun(s: State, i: nat, d: Digest, reply: Option<AuthVerifyResult>, at: Readings, victim: Digest)
    returns (steps: seq<Step>, t: State)
    requires i !in s.lookups && d != "" && Ordered(s.now, at) && MayEvict(s.entries, s.max, at.purge, victim)
    ensures Run(s, steps, t) && OthersSame(s, t, i)
    ensures i in t.lookups && t.lookups[i].Returned? && t.lookups[i].digest == d
    ensures Outcome(Shares(s), d, reply, at, victim, Shares(t), t.lookups[i].answer)
  {
    hide Run, Stored, MayEvict, MadeRoom, StaleAnswer, Touched;
    steps, t := BeginToCheck(s, i, d, at);
    if t.lookups[i].Returned? { return; }
    steps := Later(s, steps, t, at.breaker, Breaker(i));
    t := Do(t.(now := at.breaker), Breaker(i));
    if t.lookups[i].AtStale? {
      steps := Later(s, steps, t, at.stale, Stale(i));
      t := Do(t.(now := at.stale), Stale(i));
      return;
    }
    steps, t := CallToReturn(s, steps, t, i, reply, at, victim);
  }

  lemma EmptyRun(s: State)
    ensures Run(s, [], s)
  {
  }
}
