/** The shutdown protocol of `proxy/internal/span/dispatch.go` as interleaved atomic steps.

    Any number of `Dispatch` calls run beside `Drain`, the workers, the drain deadline and
    the cancellation of the parent context. A call is named by a number that also stands for
    its payload. Every atomic load, counter update and channel operation is a step of its own.

    `sync.WaitGroup` is modelled with its insides. `Wait` looks at the counter and returns, or
    becomes a waiter and sleeps. `Done` lowers the counter; the call that brings it to zero
    under a waiter goes on to reset the waiter and wake it, and `Wait` then looks once more.
    An `Add` from zero under a waiter panics, and so does a `Wait` that wakes to a counter
    that is not zero. A panic ends the run. */
module Dispatcher {

  type Call = nat

  /** Where a `Dispatch` call is. The names say what it does next. */
  datatype Pc =
    | FirstCheck              // load acceptingNew
    | CountRefused            // dropped.Add(1), return
    | Register                // dispatchWG.Add(1)
    | SecondCheck             // load acceptingNew again
    | CountLateRefused        // dropped.Add(1)
    | Send                    // the non-blocking send
    | CountFull               // dropped.Add(1)
    | Release(sent: bool)     // dispatchWG.Done(): lower the counter
    | Waking(sent: bool)      // still in Done: reset the waiter and wake it
    | Finished(sent: bool)

  /** Where the `Drain` call that won the compare-and-swap is. It is the only one that waits,
      so the counter has a waiter exactly while it is asleep. */
  datatype DrainPc = NotCalled | AtWait | Asleep | Woken | Closing | Selecting | Returned(throughWorkers: bool)

  datatype Panic = NoPanic | SendOnClosed | CloseOfClosed | NegativeCounter | AddDuringWait | WaitReused

  datatype Worker = Idle | Busy(payload: Call) | Exited

  /** `enqueued`, `taken` and `delivered` record the history of the channel. */
  datatype State = State(
    cap: nat,
    calls: map<Call, Pc>,
    accepting: bool,
    wg: int,
    dropped: nat,
    channel: seq<Call>,
    closed: bool,
    drain: DrainPc,
    started: bool,
    workers: seq<Worker>,
    cancelled: bool,
    panic: Panic,
    enqueued: seq<Call>,
    taken: seq<Call>,
    delivered: seq<Call>)

  datatype Step =
    | Invoke(c: Call)             // a new Dispatch call
    | Advance(c: Call)            // one atomic step of a Dispatch call
    | HandOff(c: Call, w: nat)    // a send received at once by a waiting worker
    | CallDrain                   // compare-and-swap of acceptingNew
    | AdvanceDrain                // a step of Wait, close(ch), or workersDone is seen
    | DrainDeadline               // the timer of Drain fires
    | StartWorkers(n: nat)
    | CancelParent                // the context given to Start is cancelled
    | Take(w: nat)                // a worker receives a payload
    | Deliver(w: nat)             // a worker's send returns
    | Exit(w: nat)                // a worker returns

  function Init(cap: nat): State {
    State(cap, map[], true, 0, 0, [], false, NotCalled, false, [], false, NoPanic, [], [], [])
  }

  predicate AllExited(s: State) {
    s.started && forall w :: 0 <= w < |s.workers| ==> s.workers[w].Exited?
  }

  predicate Enabled(s: State, a: Step) {
    && s.panic == NoPanic
    && match a
       case Invoke(c) => c !in s.calls
       case Advance(c) => c in s.calls && !s.calls[c].Finished?
       case HandOff(c, w) =>
         c in s.calls && s.calls[c].Send? && !s.closed && s.channel == [] && w < |s.workers| && s.workers[w].Idle?
       case CallDrain => true
       case AdvanceDrain =>
         s.drain.AtWait? || s.drain.Woken? || s.drain.Closing? || (s.drain.Selecting? && AllExited(s))
       case DrainDeadline => s.drain.Selecting?
       case StartWorkers(n) => !s.started && n > 0
       case CancelParent => true
       case Take(w) => w < |s.workers| && s.workers[w].Idle? && s.channel != []
       case Deliver(w) => w < |s.workers| && s.workers[w].Busy?
       case Exit(w) => w < |s.workers| && s.workers[w].Idle? && ((s.closed && s.channel == []) || s.cancelled)
  }

  /** One step of a `Dispatch` call. */
  function AdvanceCall(s: State, c: Call): (t: State)
    requires c in s.calls && !s.calls[c].Finished?
    ensures t.calls.Keys == s.calls.Keys && (t.drain == s.drain || (s.drain.Asleep? && t.drain.Woken?))
    ensures t == s.(calls := t.calls, wg := t.wg, dropped := t.dropped, channel := t.channel, drain := t.drain,
                    panic := t.panic, enqueued := t.enqueued)
    ensures s.calls[c].Send? && !s.closed ==>
              if |s.channel| < s.cap then
                t == s.(calls := s.calls[c := Release(true)], channel := s.channel + [c], enqueued := s.enqueued + [c])
              else t == s.(calls := s.calls[c := CountFull])
  {
    match s.calls[c]
    case FirstCheck => s.(calls := s.calls[c := if s.accepting then Register else CountRefused])
    case CountRefused => s.(calls := s.calls[c := Finished(false)], dropped := s.dropped + 1)
    case Register =>
      if s.drain.Asleep? && s.wg == 0 then s.(panic := AddDuringWait)
      else s.(calls := s.calls[c := SecondCheck], wg := s.wg + 1)
    case SecondCheck => s.(calls := s.calls[c := if s.accepting then Send else CountLateRefused])
    case CountLateRefused => s.(calls := s.calls[c := Release(false)], dropped := s.dropped + 1)
    case Send =>
      if s.closed then s.(panic := SendOnClosed)
      else if |s.channel| < s.cap then
        s.(calls := s.calls[c := Release(true)], channel := s.channel + [c], enqueued := s.enqueued + [c])
      else s.(calls := s.calls[c := CountFull])
    case CountFull => s.(calls := s.calls[c := Release(false)], dropped := s.dropped + 1)
    case Release(sent) =>
      if s.wg <= 0 then s.(panic := NegativeCounter)
      else s.(calls := s.calls[c := if s.wg == 1 && s.drain.Asleep? then Waking(sent) else Finished(sent)],
          wg := s.wg - 1)
    case Waking(sent) =>
      if s.wg != 0 then s.(panic := AddDuringWait)
      else s.(calls := s.calls[c := Finished(sent)], drain := if s.drain.Asleep? then Woken else s.drain)
  }

  function Do(s: State, a: Step): (t: State)
    requires Enabled(s, a)
    ensures t.cap == s.cap && (s.started ==> t.started && |t.workers| == |s.workers|)
    ensures t.started && !s.started ==> t.workers != []
  {
    match a
    case Invoke(c) => s.(calls := s.calls[c := FirstCheck])
    case Advance(c) => AdvanceCall(s, c)
    case HandOff(c, w) =>
      s.(calls := s.calls[c := Release(true)], enqueued := s.enqueued + [c], taken := s.taken + [c],
         workers := s.workers[w := Busy(c)])
    case CallDrain => if s.accepting then s.(accepting := false, drain := AtWait) else s
    case AdvanceDrain =>
      if s.drain.AtWait? then s.(drain := if s.wg == 0 then Closing else Asleep)
      else if s.drain.Woken? then if s.wg != 0 then s.(panic := WaitReused) else s.(drain := Closing)
      else if s.drain.Closing? then
        if s.closed then s.(panic := CloseOfClosed) else s.(drain := Selecting, closed := true)
      else s.(drain := Returned(true))
    case DrainDeadline => s.(drain := Returned(false), cancelled := true)
    case StartWorkers(n) => s.(started := true, workers := seq(n, _ => Idle))
    case CancelParent => s.(cancelled := true)
    case Take(w) =>
      s.(channel := s.channel[1..], taken := s.taken + [s.channel[0]], workers := s.workers[w := Busy(s.channel[0])])
    case Deliver(w) => s.(delivered := s.delivered + [s.workers[w].payload], workers := s.workers[w := Idle])
    case Exit(w) => s.(workers := s.workers[w := Exited])
  }

  /** A run: every step enabled where it is taken. */
  ghost predicate Run(s: State, steps: seq<Step>, t: State)
    decreases |steps|
  {
    if steps == [] then t == s
    else Enabled(s, steps[0]) && Run(Do(s, steps[0]), steps[1..], t)
  }

  // ---------------------------------------------------------------------
  // The invariant
  // ---------------------------------------------------------------------

  predicate Registered(pc: Pc) {
    pc.SecondCheck? || pc.CountLateRefused? || pc.Send? || pc.CountFull? || pc.Release?
  }

  /** The call has made its choice. */
  predicate Resolved(pc: Pc) {
    pc.Release? || pc.Waking? || pc.Finished?
  }

  predicate Dropped(pc: Pc) {
    Resolved(pc) && !pc.sent
  }

  predicate Enqueued(pc: Pc) {
    Resolved(pc) && pc.sent
  }

  ghost function RegisteredCalls(s: State): set<Call> {
    set c | c in s.calls && Registered(s.calls[c])
  }

  ghost function WakingCalls(s: State): set<Call> {
    set c | c in s.calls && s.calls[c].Waking?
  }

  ghost function DroppedCalls(s: State): set<Call> {
    set c | c in s.calls && Dropped(s.calls[c])
  }

  ghost function EnqueuedCalls(s: State): set<Call> {
    set c | c in s.calls && Enqueued(s.calls[c])
  }

  /** `Wait` has returned. */
  predicate PastWait(d: DrainPc) {
    d.Closing? || d.Selecting? || d.Returned?
  }

  /** The waiter sleeps although the counter has come down to zero. */
  predicate Overdue(s: State) {
    s.drain.Asleep? && s.wg == 0
  }

  /** `Wait` has seen, or is about to be told, that the counter was zero. */
  predicate SeenZero(s: State) {
    Overdue(s) || s.drain.Woken? || PastWait(s.drain)
  }

  ghost predicate NobodyAtSend(s: State) {
    forall c :: c in s.calls ==> !s.calls[c].Send?
  }

  /** The flag, the counter, the waiter and the channel agree with where everyone is, and the
      only panics are those of the wait group. */
  ghost predicate Shutdown(s: State) {
    && (s.panic == NoPanic || s.panic == AddDuringWait || s.panic == WaitReused)
    && s.wg == |RegisteredCalls(s)|
    && |WakingCalls(s)| == (if Overdue(s) then 1 else 0)
    && (s.accepting <==> s.drain.NotCalled?)
    && (s.closed <==> s.drain.Selecting? || s.drain.Returned?)
    && (SeenZero(s) ==> NobodyAtSend(s))
  }

  ghost predicate NoDuplicates(q: seq<Call>) {
    forall i, j :: 0 <= i < j < |q| ==> q[i] != q[j]
  }

  ghost function Elements(q: seq<Call>): set<Call> {
    set c | c in q
  }

  /** What happened to every payload. */
  ghost predicate Conserved(s: State) {
    && s.dropped == |DroppedCalls(s)|
    && s.enqueued == s.taken + s.channel
    && NoDuplicates(s.enqueued)
    && Elements(s.enqueued) == EnqueuedCalls(s)
    && |s.channel| <= s.cap
  }

  function Held(w: Worker): multiset<Call> {
    if w.Busy? then multiset{w.payload} else multiset{}
  }

  function BusyPayloads(ws: seq<Worker>): multiset<Call> {
    if ws == [] then multiset{} else BusyPayloads(ws[..|ws| - 1]) + Held(ws[|ws| - 1])
  }

  ghost predicate TakenOk(s: State) {
    multiset(s.taken) == multiset(s.delivered) + BusyPayloads(s.workers)
  }

  ghost predicate ExitsOk(s: State) {
    && (!s.started ==> s.workers == [])
    && (s.drain == Returned(true) ==> AllExited(s))
    && (s.drain == Returned(false) ==> s.cancelled)
    && (!s.cancelled ==> forall w :: 0 <= w < |s.workers| && s.workers[w].Exited? ==> s.closed && s.channel == [])
  }

  // ---------------------------------------------------------------------
  // Preservation
  // ---------------------------------------------------------------------

  /** Moving one call changes each of the sets by at most that call. */
  lemma SetsAfterMove(s: State, t: State, c: Call, pc: Pc)
    requires t.calls == s.calls[c := pc]
    ensures && WakingCalls(t) == (if pc.Waking? then WakingCalls(s) + {c} else WakingCalls(s) - {c})
            && RegisteredCalls(t) == (if Registered(pc) then RegisteredCalls(s) + {c} else RegisteredCalls(s) - {c})
            && DroppedCalls(t) == (if Dropped(pc) then DroppedCalls(s) + {c} else DroppedCalls(s) - {c})
            && EnqueuedCalls(t) == (if Enqueued(pc) then EnqueuedCalls(s) + {c} else EnqueuedCalls(s) - {c})
  {
  }

  lemma SetsOfCalls(s: State, t: State)
    requires s.calls == t.calls
    ensures RegisteredCalls(s) == RegisteredCalls(t) && WakingCalls(s) == WakingCalls(t)
    ensures DroppedCalls(s) == DroppedCalls(t) && EnqueuedCalls(s) == EnqueuedCalls(t)
  {
  }

  lemma ShutdownKept(s: State, a: Step)
    requires Shutdown(s) && Enabled(s, a)
    ensures Shutdown(Do(s, a))
  {
    hide Shutdown, RegisteredCalls, WakingCalls;
    if a.Invoke? {
      ShutdownMove(s, Do(s, a), a.c, FirstCheck);
    } else if a.Advance? {
      ShutdownCall(s, a.c);
    } else if a.HandOff? {
      ShutdownAt(s, a.c);
      ShutdownMove(s, Do(s, a), a.c, Release(true));
    } else {
      ShutdownElse(s, a);
    }
  }

  /** A step in which no call moves. */
  lemma ShutdownElse(s: State, a: Step)
    requires Shutdown(s) && Enabled(s, a) && !a.Invoke? && !a.Advance? && !a.HandOff?
    ensures Shutdown(Do(s, a))
  {
    hide RegisteredCalls, WakingCalls;
    SetsOfCalls(s, Do(s, a));
    if a.AdvanceDrain? && s.drain.AtWait? && s.wg == 0 { NobodySends(s); }
  }

  /** The step that makes `close` safe: when the counter is zero nobody is between the second
      check and `Done`. */
  lemma NobodySends(s: State)
    requires s.wg == |RegisteredCalls(s)| == 0
    ensures NobodyAtSend(s)
  {
    hide RegisteredCalls;
    forall c | c in s.calls ensures !s.calls[c].Send? {
      if s.calls[c].Send? { IsRegistered(s, c); }
    }
  }

  lemma IsRegistered(s: State, c: Call)
    requires c in s.calls && Registered(s.calls[c])
    ensures c in RegisteredCalls(s) && |RegisteredCalls(s)| >= 1
    ensures RegisteredCalls(s) + {c} == RegisteredCalls(s) && |RegisteredCalls(s) - {c}| == |RegisteredCalls(s)| - 1
  {
  }

  lemma NotRegistered(s: State, c: Call)
    requires c !in s.calls || !Registered(s.calls[c])
    ensures RegisteredCalls(s) - {c} == RegisteredCalls(s) && |RegisteredCalls(s) + {c}| == |RegisteredCalls(s)| + 1
  {
  }

  lemma WakingCount(s: State, c: Call)
    ensures if c in s.calls && s.calls[c].Waking?
            then WakingCalls(s) + {c} == WakingCalls(s) && |WakingCalls(s) - {c}| == |WakingCalls(s)| - 1 >= 0
            else WakingCalls(s) - {c} == WakingCalls(s) && |WakingCalls(s) + {c}| == |WakingCalls(s)| + 1
  {
  }

  /** A call moves from where it is to `pc`; the counter follows its registration, and it wakes
      the waiter exactly when the waiter is overdue. */
  lemma ShutdownMove(s: State, t: State, c: Call, pc: Pc)
    requires Shutdown(s) && t.calls == s.calls[c := pc]
    requires t.panic == s.panic && t.accepting == s.accepting && t.closed == s.closed
    requires t.drain == s.drain || (s.drain.Asleep? && t.drain.Woken? && t.wg == 0)
    requires var was := c in s.calls && Registered(s.calls[c]);
             t.wg == s.wg + (if Registered(pc) && !was then 1 else if !Registered(pc) && was then -1 else 0)
    requires var was := c in s.calls && s.calls[c].Waking?;
             (if Overdue(t) then 1 else 0)
             == (if Overdue(s) then 1 else 0) + (if pc.Waking? && !was then 1 else if !pc.Waking? && was then -1 else 0)
    requires pc.Send? ==> !SeenZero(t)
    ensures Shutdown(t)
  {
    hide RegisteredCalls, WakingCalls, DroppedCalls, EnqueuedCalls, NobodyAtSend;
    SetsAfterMove(s, t, c, pc);
    if c in s.calls && Registered(s.calls[c]) { IsRegistered(s, c); } else { NotRegistered(s, c); }
    WakingCount(s, c);
    if t.wg == 0 { NobodySends(t); }
    if !pc.Send? && NobodyAtSend(s) { StillNobody(s, t, c, pc); }
  }

  lemma StillNobody(s: State, t: State, c: Call, pc: Pc)
    requires NobodyAtSend(s) && t.calls == s.calls[c := pc] && !pc.Send?
    ensures NobodyAtSend(t)
  {
  }

  /** What `Shutdown` says about a call that is about to move. */
  lemma ShutdownAt(s: State, c: Call)
    requires Shutdown(s) && c in s.calls
    ensures Registered(s.calls[c]) ==> s.wg >= 1
    ensures s.calls[c].Waking? ==> Overdue(s)
    ensures s.calls[c].Send? ==> !s.closed && !SeenZero(s)
    ensures s.accepting ==> !SeenZero(s)
  {
    hide RegisteredCalls, WakingCalls;
    if Registered(s.calls[c]) { IsRegistered(s, c); }
    WakingCount(s, c);
  }

  lemma ShutdownPanics(s: State, t: State)
    requires Shutdown(s) && (t.panic == AddDuringWait || t.panic == WaitReused) && t == s.(panic := t.panic)
    ensures Shutdown(t)
  {
    SetsOfCalls(s, t);
  }

  lemma ShutdownCall(s: State, c: Call)
    requires Shutdown(s) && c in s.calls && !s.calls[c].Finished?
    ensures Shutdown(AdvanceCall(s, c))
    ensures AdvanceCall(s, c).panic == if s.calls[c].Register? && Overdue(s) then AddDuringWait else s.panic
  {
    if s.calls[c].Register? || s.calls[c].Release? || s.calls[c].Waking? {
      ShutdownWait(s, c);
    } else {
      ShutdownAt(s, c);
      var t := AdvanceCall(s, c);
      hide Shutdown;
      ShutdownMove(s, t, c, t.calls[c]);
    }
  }

  /** A step on the wait group. */
  lemma ShutdownWait(s: State, c: Call)
    requires Shutdown(s) && c in s.calls && (s.calls[c].Register? || s.calls[c].Release? || s.calls[c].Waking?)
    ensures Shutdown(AdvanceCall(s, c))
    ensures AdvanceCall(s, c).panic == if s.calls[c].Register? && Overdue(s) then AddDuringWait else s.panic
  {
    ShutdownAt(s, c);
    var t := AdvanceCall(s, c);
    hide Shutdown;
    match s.calls[c]
    case Register => if Overdue(s) { ShutdownPanics(s, t); } else { ShutdownMove(s, t, c, SecondCheck); }
    case Release(sent) => ShutdownMove(s, t, c, if s.wg == 1 && s.drain.Asleep? then Waking(sent) else Finished(sent));
    case Waking(sent) => ShutdownMove(s, t, c, Finished(sent));
  }

  lemma RankDown(s: State, c: Call)
    requires c in s.calls && !s.calls[c].Finished? && s.panic == NoPanic && AdvanceCall(s, c).panic == NoPanic
    ensures Rank(AdvanceCall(s, c).calls[c]) < Rank(s.calls[c])
  {
    match s.calls[c]
    case Register => assert AdvanceCall(s, c).calls[c] == SecondCheck;
    case Send => assert AdvanceCall(s, c).calls[c] in {Release(true), CountFull};
    case _ =>
  }

  lemma ConservedKept(s: State, a: Step)
    requires Conserved(s) && Enabled(s, a)
    ensures Conserved(Do(s, a))
  {
    hide Conserved, AdvanceCall;
    match a
    case Invoke(c) => ConservedMove(s, Do(s, a), c, FirstCheck);
    case Advance(c) => ConservedCall(s, c);
    case HandOff(c, w) => ConservedSend(s, Do(s, a), c);
    case Take(w) => ConservedTake(s, w);
    case _ => ConservedSame(s, Do(s, a));
  }

  lemma ConservedTake(s: State, w: nat)
    requires Conserved(s) && Enabled(s, Take(w))
    ensures Conserved(Do(s, Take(w)))
  {
  }

  /** No call moves; the channel only gives to `taken`. */
  lemma ConservedSame(s: State, t: State)
    requires Conserved(s) && t.calls == s.calls && t.cap == s.cap && t.dropped == s.dropped && t.enqueued == s.enqueued
    requires s.taken + s.channel == t.taken + t.channel && |t.channel| <= |s.channel|
    ensures Conserved(t)
  {
  }

  /** A move that touches no payload; entering a dropped state counts. */
  lemma ConservedMove(s: State, t: State, c: Call, pc: Pc)
    requires Conserved(s) && t.calls == s.calls[c := pc]
    requires t.cap == s.cap && t.channel == s.channel && t.enqueued == s.enqueued && t.taken == s.taken
    requires Enqueued(pc) <==> c in s.calls && Enqueued(s.calls[c])
    requires c in s.calls && Dropped(s.calls[c]) ==> Dropped(pc)
    requires t.dropped == s.dropped + (if Dropped(pc) && !(c in s.calls && Dropped(s.calls[c])) then 1 else 0)
    ensures Conserved(t)
  {
    hide NoDuplicates, DroppedCalls, EnqueuedCalls, Elements;
    SetsAfterMove(s, t, c, pc);
    DroppedCount(s, c);
    EnqueuedCount(s, c);
  }

  lemma DroppedCount(s: State, c: Call)
    ensures c in s.calls && Dropped(s.calls[c]) ==> DroppedCalls(s) + {c} == DroppedCalls(s)
    ensures !(c in s.calls && Dropped(s.calls[c])) ==>
              DroppedCalls(s) - {c} == DroppedCalls(s) && |DroppedCalls(s) + {c}| == |DroppedCalls(s)| + 1
  {
  }

  lemma EnqueuedCount(s: State, c: Call)
    ensures c in s.calls && Enqueued(s.calls[c]) ==> EnqueuedCalls(s) + {c} == EnqueuedCalls(s)
    ensures !(c in s.calls && Enqueued(s.calls[c])) ==>
              EnqueuedCalls(s) - {c} == EnqueuedCalls(s) && c !in EnqueuedCalls(s)
  {
  }

  /** A successful send: into the channel, or straight into the hands of a worker. */
  lemma ConservedSend(s: State, t: State, c: Call)
    requires Conserved(s) && c in s.calls && s.calls[c].Send? && t.calls == s.calls[c := Release(true)]
    requires t.cap == s.cap && t.dropped == s.dropped && t.enqueued == s.enqueued + [c]
    requires || (t.taken == s.taken && t.channel == s.channel + [c] && |t.channel| <= s.cap)
             || (t.taken == s.taken + [c] && t.channel == s.channel == [])
    ensures Conserved(t)
  {
    hide NoDuplicates, DroppedCalls, EnqueuedCalls, Elements;
    SetsAfterMove(s, t, c, Release(true));
    DroppedCount(s, c);
    EnqueuedCount(s, c);
    AppendFresh(s.enqueued, EnqueuedCalls(s), c);
    assert (s.taken + s.channel) + [c] == s.taken + (s.channel + [c]);
  }

  lemma AppendFresh(q: seq<Call>, members: set<Call>, c: Call)
    requires NoDuplicates(q) && Elements(q) == members && c !in members
    ensures NoDuplicates(q + [c])
    ensures Elements(q + [c]) == members + {c}
  {
  }

  lemma ConservedCall(s: State, c: Call)
    requires Conserved(s) && c in s.calls && !s.calls[c].Finished?
    ensures Conserved(AdvanceCall(s, c))
  {
    hide Conserved;
    if s.calls[c].Send? {
      ConservedTrySend(s, c);
    } else if s.calls[c].Release? || s.calls[c].Waking? || s.calls[c].Register? {
      ConservedWait(s, c);
    } else {
      var t := AdvanceCall(s, c);
      ConservedMove(s, t, c, t.calls[c]);
    }
  }

  lemma ConservedTrySend(s: State, c: Call)
    requires Conserved(s) && c in s.calls && s.calls[c].Send?
    ensures Conserved(AdvanceCall(s, c))
  {
    hide Conserved;
    var t := AdvanceCall(s, c);
    if s.closed { ConservedSame(s, t); }
    else if |s.channel| < s.cap { ConservedSend(s, t, c); }
    else { ConservedMove(s, t, c, CountFull); }
  }

  /** A step on the wait group, which may panic. */
  lemma ConservedWait(s: State, c: Call)
    requires Conserved(s) && c in s.calls && (s.calls[c].Release? || s.calls[c].Waking? || s.calls[c].Register?)
    ensures Conserved(AdvanceCall(s, c))
  {
    hide Conserved;
    var t := AdvanceCall(s, c);
    if t.calls == s.calls { ConservedSame(s, t); } else { ConservedMove(s, t, c, t.calls[c]); }
  }

  lemma {:induction false} BusyUpdate(ws: seq<Worker>, w: nat, x: Worker)
    requires w < |ws|
    ensures BusyPayloads(ws[w := x]) + Held(ws[w]) == BusyPayloads(ws) + Held(x)
    decreases |ws|
  {
    hide Held;
    var n, ws' := |ws| - 1, ws[w := x];
    if w == n {
      assert ws'[..n] == ws[..n];
    } else {
      assert ws'[..n] == ws[..n][w := x];
      BusyUpdate(ws[..n], w, x);
      AddBoth(BusyPayloads(ws'[..n]), Held(ws[w]), BusyPayloads(ws[..n]), Held(x), Held(ws[n]));
    }
  }

  lemma AddBoth(a: multiset<Call>, b: multiset<Call>, c: multiset<Call>, d: multiset<Call>, extra: multiset<Call>)
    requires a + b == c + d
    ensures (a + extra) + b == (c + extra) + d
  {
    forall e ensures ((a + extra) + b)[e] == ((c + extra) + d)[e] {
      assert (a + b)[e] == (c + d)[e];
    }
  }

  lemma {:induction false} NoneBusy(ws: seq<Worker>)
    requires forall w :: 0 <= w < |ws| ==> !ws[w].Busy?
    ensures BusyPayloads(ws) == multiset{}
    decreases |ws|
  {
    if ws == [] {
    } else {
      NoneBusy(ws[..|ws| - 1]);
    }
  }

  /** One worker changes state, with what it took and delivered. */
  lemma TakenMove(s: State, t: State, w: nat, x: Worker)
    requires TakenOk(s) && w < |s.workers| && t.workers == s.workers[w := x]
    requires var was := s.workers[w];
             || (x.Busy? && !was.Busy? && t.taken == s.taken + [x.payload] && t.delivered == s.delivered)
             || (!x.Busy? && was.Busy? && t.taken == s.taken && t.delivered == s.delivered + [was.payload])
             || (!x.Busy? && !was.Busy? && t.taken == s.taken && t.delivered == s.delivered)
    ensures TakenOk(t)
  {
    hide BusyPayloads;
    BusyUpdate(s.workers, w, x);
    Balance(multiset(s.taken), multiset(s.delivered), BusyPayloads(s.workers), BusyPayloads(t.workers),
        Held(s.workers[w]), Held(x));
  }

  lemma Balance(taken: multiset<Call>, done: multiset<Call>, busy: multiset<Call>, busy': multiset<Call>,
                h: multiset<Call>, h': multiset<Call>)
    requires taken == done + busy && busy' + h == busy + h'
    ensures h == multiset{} ==> taken + h' == done + busy'
    ensures h' == multiset{} ==> taken == (done + h) + busy'
  {
    forall e ensures (taken + h')[e] == ((done + h) + busy')[e] {
      assert (busy' + h)[e] == (busy + h')[e];
    }
    assert h == multiset{} ==> done + h == done;
  }

  lemma TakenKept(s: State, a: Step)
    requires TakenOk(s) && ExitsOk(s) && Enabled(s, a)
    ensures TakenOk(Do(s, a))
  {
    if a.StartWorkers? {
      TakenStart(s, a.n);
    } else {
      hide TakenOk, ExitsOk, BusyPayloads, AdvanceCall;
      var t := Do(s, a);
      match a
      case Take(w) => TakenMove(s, t, w, Busy(s.channel[0]));
      case HandOff(c, w) => TakenMove(s, t, w, Busy(c));
      case Deliver(w) => TakenMove(s, t, w, Idle);
      case Exit(w) => TakenMove(s, t, w, Exited);
      case _ => TakenSame(s, t);
    }
  }

  lemma TakenStart(s: State, n: nat)
    requires TakenOk(s) && ExitsOk(s) && Enabled(s, StartWorkers(n))
    ensures TakenOk(Do(s, StartWorkers(n)))
  {
    hide BusyPayloads;
    NoneBusy(s.workers);
    NoneBusy(Do(s, StartWorkers(n)).workers);
  }

  lemma TakenSame(s: State, t: State)
    requires TakenOk(s) && t.taken == s.taken && t.delivered == s.delivered && t.workers == s.workers
    ensures TakenOk(t)
  {
  }

  lemma ExitsKept(s: State, a: Step)
    requires Shutdown(s) && ExitsOk(s) && Enabled(s, a)
    ensures ExitsOk(Do(s, a))
  {
    hide RegisteredCalls;
    if a.Advance? { ShutdownAt(s, a.c); }
  }

  // ---------------------------------------------------------------------
  // Every run
  // ---------------------------------------------------------------------

  ghost predicate Inv(s: State) {
    Shutdown(s) && Conserved(s) && TakenOk(s) && ExitsOk(s)
  }

  lemma InitInv(cap: nat)
    ensures Inv(Init(cap))
  {
  }

  lemma {:induction false} InvAlongRun(s: State, steps: seq<Step>, t: State)
    requires Inv(s) && Run(s, steps, t)
    ensures Inv(t)
    decreases |steps|
  {
    hide Shutdown, Conserved, TakenOk, ExitsOk;
    if steps == [] {
    } else {
      ShutdownKept(s, steps[0]);
      ConservedKept(s, steps[0]);
      TakenKept(s, steps[0]);
      ExitsKept(s, steps[0]);
      InvAlongRun(Do(s, steps[0]), steps[1..], t);
    }
  }

  /** No interleaving ever sends on the closed channel, closes it twice or drives the counter
      negative; the counter is the number of registered calls. */
  lemma ClosesSafely(cap: nat, steps: seq<Step>, t: State)
    requires Run(Init(cap), steps, t)
    ensures t.panic != SendOnClosed && t.panic != CloseOfClosed && t.panic != NegativeCounter
    ensures t.wg == |RegisteredCalls(t)|
    ensures t.closed ==> NobodyAtSend(t)
  {
    InitInv(cap);
    InvAlongRun(Init(cap), steps, t);
  }

  /** Every call that has made its choice was dropped and counted, or enqueued; payloads
      leave the channel in the order they entered and none enters twice. */
  lemma SpansConserved(cap: nat, steps: seq<Step>, t: State)
    requires Run(Init(cap), steps, t)
    ensures |set c | c in t.calls && Resolved(t.calls[c])| == t.dropped + |t.enqueued|
    ensures t.enqueued == t.taken + t.channel && |t.channel| <= cap
    ensures forall i, j :: 0 <= i < j < |t.enqueued| ==> t.enqueued[i] != t.enqueued[j]
    ensures multiset(t.taken) == multiset(t.delivered) + BusyPayloads(t.workers)
  {
    hide BusyPayloads, RegisteredCalls, DroppedCalls, EnqueuedCalls, Elements, Do;
    InitInv(cap);
    InvAlongRun(Init(cap), steps, t);
    CapFixed(Init(cap), steps, t);
    ResolvedCalls(t);
    DistinctCount(t.enqueued);
  }

  lemma ResolvedCalls(t: State)
    ensures |set c | c in t.calls && Resolved(t.calls[c])| == |DroppedCalls(t)| + |EnqueuedCalls(t)|
  {
    var resolved := set c | c in t.calls && Resolved(t.calls[c]);
    assert resolved == DroppedCalls(t) + EnqueuedCalls(t) && DroppedCalls(t) !! EnqueuedCalls(t);
  }

  lemma {:induction false} CapFixed(s: State, steps: seq<Step>, t: State)
    requires Run(s, steps, t)
    ensures t.cap == s.cap
    decreases |steps|
  {
    if steps == [] {
    } else {
      hide Do;
      CapFixed(Do(s, steps[0]), steps[1..], t);
    }
  }

  lemma {:induction false} DistinctCount(q: seq<Call>)
    requires NoDuplicates(q)
    ensures |Elements(q)| == |q|
  {
    if q == [] {
    } else {
      var n := |q| - 1;
      DistinctCount(q[..n]);
      SetOfAppend(q[..n], q[n]);
      assert q == q[..n] + [q[n]];
    }
  }

  lemma SetOfAppend(q: seq<Call>, x: Call)
    requires x !in q
    ensures Elements(q + [x]) == Elements(q) + {x}
    ensures |Elements(q + [x])| == |Elements(q)| + 1
  {
  }

  /** If `Drain` returned through `workersDone` and nothing was cancelled, every payload that
      was ever enqueued was taken exactly once and its send has returned. */
  lemma DrainedCompletely(cap: nat, steps: seq<Step>, t: State)
    requires Run(Init(cap), steps, t) && t.drain == Returned(true) && !t.cancelled
    ensures t.channel == [] && t.taken == t.enqueued && multiset(t.delivered) == multiset(t.enqueued)
    ensures AllExited(t)
  {
    hide BusyPayloads, RegisteredCalls, NoDuplicates;
    InitInv(cap);
    InvAlongRun(Init(cap), steps, t);
    NoneBusy(t.workers);
    StartedHasWorkers(Init(cap), steps, t);
    assert t.workers[0].Exited?;
    assert t.taken + [] == t.taken;
  }

  /** When `Drain` has returned the channel is closed, nobody is about to send, and the workers have
      all exited or were told to stop. */
  lemma DrainReturns(cap: nat, steps: seq<Step>, t: State)
    requires Run(Init(cap), steps, t) && t.drain.Returned?
    ensures t.closed && !t.accepting && NobodyAtSend(t)
    ensures if t.drain.throughWorkers then AllExited(t) else t.cancelled
  {
    hide Conserved, TakenOk, RegisteredCalls, WakingCalls;
    InitInv(cap);
    InvAlongRun(Init(cap), steps, t);
  }

  lemma {:induction false} StartedHasWorkers(s: State, steps: seq<Step>, t: State)
    requires Run(s, steps, t) && (s.started ==> s.workers != [])
    ensures t.started ==> t.workers != []
    decreases |steps|
  {
    if steps == [] {
    } else {
      hide Do;
      StartedHasWorkers(Do(s, steps[0]), steps[1..], t);
    }
  }

  // ---------------------------------------------------------------------
  // Termination
  // ---------------------------------------------------------------------

  function Rank(pc: Pc): nat {
    match pc
    case FirstCheck => 7
    case Register => 6
    case SecondCheck => 5
    case Send => 4
    case CountLateRefused => 3
    case CountFull => 3
    case CountRefused => 1
    case Release(_) => 2
    case Waking(_) => 1
    case Finished(_) => 0
  }

  /** `Dispatch` never blocks: until it has finished its next step is enabled and, unless it is
      an `Add` under an overdue waiter, brings it nearer to the end, whatever everybody else does. */
  lemma DispatchNeverBlocks(s: State, c: Call)
    requires Inv(s) && s.panic == NoPanic && c in s.calls && !s.calls[c].Finished?
    ensures Enabled(s, Advance(c))
    ensures var t := AdvanceCall(s, c);
            && t == Do(s, Advance(c))
            && (t.panic == AddDuringWait <==> s.calls[c].Register? && Overdue(s))
            && (t.panic == NoPanic <==> !(s.calls[c].Register? && Overdue(s)))
            && (t.panic == NoPanic ==> Rank(t.calls[c]) < Rank(s.calls[c]))
  {
    hide Shutdown, Conserved, TakenOk, ExitsOk, AdvanceCall;
    ShutdownCall(s, c);
    if AdvanceCall(s, c).panic == NoPanic { RankDown(s, c); }
  }

  /** No wake-up is lost: a sleeping waiter has a call that is registered or about to wake it. */
  lemma WaitIsWoken(s: State) returns (c: Call)
    requires Inv(s) && s.panic == NoPanic && s.drain.Asleep?
    ensures c in s.calls && (Registered(s.calls[c]) || s.calls[c].Waking?)
    ensures Enabled(s, Advance(c)) && Do(s, Advance(c)).panic == NoPanic
  {
    hide Conserved, TakenOk, ExitsOk;
    if s.wg == 0 {
      c :| c in WakingCalls(s);
    } else {
      c :| c in RegisteredCalls(s);
    }
    hide Shutdown;
    ShutdownCall(s, c);
  }

  predicate IsWorkerStep(a: Step) {
    a.Take? || a.Deliver? || a.Exit?
  }

  /** How much the workers can still do: two for a queued payload (take, deliver) ... */
  function WorkLeft(ws: seq<Worker>): nat {
    if ws == [] then 0
    else WorkLeft(ws[..|ws| - 1]) + (match ws[|ws| - 1] case Idle => 1 case Busy(_) => 2 case Exited => 0)
  }

  function Measure(s: State): nat {
    2 * |s.channel| + WorkLeft(s.workers)
  }

  lemma {:induction false} WorkLeftUpdate(ws: seq<Worker>, w: nat, x: Worker)
    requires w < |ws|
    ensures WorkLeft(ws[w := x]) + (match ws[w] case Idle => 1 case Busy(_) => 2 case Exited => 0)
            == WorkLeft(ws) + (match x case Idle => 1 case Busy(_) => 2 case Exited => 0)
    decreases |ws|
  {
    var n := |ws| - 1;
    if w == n {
      assert ws[w := x][..n] == ws[..n];
    } else {
      assert ws[w := x][..n] == ws[..n][w := x];
      WorkLeftUpdate(ws[..n], w, x);
    }
  }

  /** After `close` every worker step uses up some of the work left and no other step adds any. */
  lemma MeasureAfterClose(s: State, a: Step)
    requires Inv(s) && s.closed && s.started && Enabled(s, a)
    ensures Do(s, a).closed && Do(s, a).started
    ensures Measure(Do(s, a)) + (if IsWorkerStep(a) then 1 else 0) <= Measure(s)
  {
    hide WorkLeft, Conserved, TakenOk, ExitsOk, RegisteredCalls;
    match a
    case Take(w) => WorkLeftUpdate(s.workers, w, Busy(s.channel[0]));
    case Deliver(w) => WorkLeftUpdate(s.workers, w, Idle);
    case Exit(w) => WorkLeftUpdate(s.workers, w, Exited);
    case _ =>
  }

  /** While a worker is alive after `close`, some worker step is enabled: workers never get stuck. */
  lemma WorkersNeverStuck(s: State) returns (a: Step)
    requires Inv(s) && s.panic == NoPanic && s.closed && s.started && !AllExited(s)
    ensures Enabled(s, a) && IsWorkerStep(a)
  {
    hide Conserved, TakenOk, ExitsOk, RegisteredCalls;
    var w :| 0 <= w < |s.workers| && !s.workers[w].Exited?;
    a := if s.workers[w].Busy? then Deliver(w) else if s.channel != [] then Take(w) else Exit(w);
  }

  /** After the deadline, or a cancelled parent, the workers can finish what they hold and exit at
      once, however much is left in the channel. */
  lemma {:induction false} CancelledWorkersExit(s: State) returns (steps: seq<Step>, t: State)
    requires s.panic == NoPanic && s.started && s.cancelled
    ensures Run(s, steps, t) && AllExited(t) && |steps| <= WorkLeft(s.workers)
    ensures t.channel == s.channel && t.calls == s.calls && t.taken == s.taken
    decreases WorkLeft(s.workers)
  {
    hide WorkLeft;
    steps, t := [], s;
    if !AllExited(s) {
      var w :| 0 <= w < |s.workers| && !s.workers[w].Exited?;
      var a := if s.workers[w].Busy? then Deliver(w) else Exit(w);
      WorkLeftUpdate(s.workers, w, if s.workers[w].Busy? then Idle else Exited);
      var rest;
      rest, t := CancelledWorkersExit(Do(s, a));
      steps := [a] + rest;
      assert steps[1..] == rest;
    }
  }

  function WorkerSteps(steps: seq<Step>): nat {
    if steps == [] then 0 else (if IsWorkerStep(steps[0]) then 1 else 0) + WorkerSteps(steps[1..])
  }

  /** So after `close` no run, however long, has more worker steps than the measure allows. */
  lemma {:induction false} WorkersFinish(s: State, steps: seq<Step>, t: State)
    requires Inv(s) && s.closed && s.started && Run(s, steps, t)
    ensures WorkerSteps(steps) + Measure(t) <= Measure(s)
    decreases |steps|
  {
    hide Shutdown, Conserved, TakenOk, ExitsOk, Measure;
    if steps == [] {
    } else {
      var s' := Do(s, steps[0]);
      MeasureAfterClose(s, steps[0]);
      ShutdownKept(s, steps[0]);
      ConservedKept(s, steps[0]);
      TakenKept(s, steps[0]);
      ExitsKept(s, steps[0]);
      WorkersFinish(s', steps[1..], t);
    }
  }
}
