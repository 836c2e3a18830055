/** Which payloads the dispatcher of `proxy/internal/span/dispatch.go` drops: those of the calls
    that saw the flag down or found the channel full, and no others. */
module DispatchDrops {
  import opened Dispatcher

  /** A call looks at the flag and finds it down, or tries to send and finds `cap` payloads in
      the open channel. */
  predicate Refuses(s: State, a: Step) {
    && a.Advance? && a.c in s.calls
    && (|| ((s.calls[a.c].FirstCheck? || s.calls[a.c].SecondCheck?) && !s.accepting)
        || (s.calls[a.c].Send? && !s.closed && |s.channel| >= s.cap))
  }

  /** A call sends: a worker takes the payload at once, or fewer than `cap` are in the channel. */
  predicate Sends(s: State, a: Step) {
    a.HandOff? || (a.Advance? && a.c in s.calls && s.calls[a.c].Send? && !s.closed && |s.channel| < s.cap)
  }

  /** The calls that were refused on the way from `s`. */
  ghost function Refused(s: State, steps: seq<Step>): set<Call>
    decreases |steps|
  {
    if steps == [] || !Enabled(s, steps[0]) then {}
    else (if Refuses(s, steps[0]) then {steps[0].c} else {}) + Refused(Do(s, steps[0]), steps[1..])
  }

  /** The calls that sent. */
  ghost function Sent(s: State, steps: seq<Step>): set<Call>
    decreases |steps|
  {
    if steps == [] || !Enabled(s, steps[0]) then {}
    else (if Sends(s, steps[0]) then {steps[0].c} else {}) + Sent(Do(s, steps[0]), steps[1..])
  }

  /** Refused, but not yet counted. */
  predicate Uncounted(pc: Pc) {
    pc.CountRefused? || pc.CountLateRefused? || pc.CountFull?
  }

  ghost function Lost(s: State): set<Call> {
    set c | c in s.calls && (Uncounted(s.calls[c]) || Dropped(s.calls[c]))
  }

  /** Moving one call changes each of the sets by at most that call. */
  lemma LostAfterMove(s: State, t: State, c: Call, pc: Pc)
    requires t.calls == s.calls[c := pc]
    ensures Lost(t) == if Uncounted(pc) || Dropped(pc) then Lost(s) + {c} else Lost(s) - {c}
    ensures EnqueuedCalls(t) == if Enqueued(pc) then EnqueuedCalls(s) + {c} else EnqueuedCalls(s) - {c}
    ensures c in s.calls && (Uncounted(s.calls[c]) || Dropped(s.calls[c])) ==> c in Lost(s)
    ensures !(c in s.calls && (Uncounted(s.calls[c]) || Dropped(s.calls[c]))) ==> c !in Lost(s)
    ensures c in EnqueuedCalls(s) <==> c in s.calls && Enqueued(s.calls[c])
  {
  }

  lemma StepLosesExactly(s: State, a: Step)
    requires Inv(s) && Enabled(s, a)
    ensures Lost(Do(s, a)) == Lost(s) + (if Refuses(s, a) then {a.c} else {})
    ensures EnqueuedCalls(Do(s, a)) == EnqueuedCalls(s) + (if Sends(s, a) then {a.c} else {})
  {
    hide Inv, Lost, EnqueuedCalls, AdvanceCall, AllExited;
    var t := Do(s, a);
    if a.Invoke? {
      LostAfterMove(s, t, a.c, FirstCheck);
    } else if a.HandOff? {
      LostAfterMove(s, t, a.c, Release(true));
    } else if a.Advance? {
      CallLosesExactly(s, a.c);
    } else {
      SameLost(s, t);
    }
  }

  lemma SameLost(s: State, t: State)
    requires t.calls == s.calls
    ensures Lost(t) == Lost(s) && EnqueuedCalls(t) == EnqueuedCalls(s)
  {
  }

  lemma CallLosesExactly(s: State, c: Call)
    requires Inv(s) && Enabled(s, Advance(c))
    ensures var t := AdvanceCall(s, c);
            && Lost(t) == Lost(s) + (if Refuses(s, Advance(c)) then {c} else {})
            && EnqueuedCalls(t) == EnqueuedCalls(s) + (if Sends(s, Advance(c)) then {c} else {})
  {
    hide Inv, Lost, EnqueuedCalls, Refuses, Sends, AdvanceCall;
    var t := AdvanceCall(s, c);
    CallMoves(s, c);
    if t.calls == s.calls { SameLost(s, t); } else { LostAfterMove(s, t, c, t.calls[c]); }
  }

  /** Where a call goes, and whether that loses or sends its payload. */
  ghost predicate Moves(s: State, c: Call, t: State)
    requires c in s.calls
  {
    var refuses, sends := Refuses(s, Advance(c)), Sends(s, Advance(c));
    if t.calls == s.calls then !refuses && !sends
    else
      && c in t.calls && t.calls == s.calls[c := t.calls[c]]
      && (Uncounted(t.calls[c]) || Dropped(t.calls[c]) <==> refuses || Uncounted(s.calls[c]) || Dropped(s.calls[c]))
      && (Enqueued(t.calls[c]) <==> sends || Enqueued(s.calls[c]))
  }

  lemma CallMoves(s: State, c: Call)
    requires Inv(s) && Enabled(s, Advance(c))
    ensures Moves(s, c, AdvanceCall(s, c))
  {
    hide Inv;
    if s.calls[c].Send? {
      NotClosed(s, c);
      SendMoves(s, c);
    } else if s.calls[c].Register? || s.calls[c].Release? || s.calls[c].Waking? {
      WaitMoves(s, c);
    } else {
      LookMoves(s, c);
    }
  }

  lemma SendMoves(s: State, c: Call)
    requires c in s.calls && s.calls[c].Send? && !s.closed
    ensures Moves(s, c, AdvanceCall(s, c))
  {
  }

  lemma WaitMoves(s: State, c: Call)
    requires c in s.calls && (s.calls[c].Register? || s.calls[c].Release? || s.calls[c].Waking?)
    ensures Moves(s, c, AdvanceCall(s, c))
  {
  }

  lemma LookMoves(s: State, c: Call)
    requires c in s.calls && !s.calls[c].Send? && !s.calls[c].Finished?
    requires !s.calls[c].Register? && !s.calls[c].Release? && !s.calls[c].Waking?
    ensures Moves(s, c, AdvanceCall(s, c))
  {
  }

  lemma NotClosed(s: State, c: Call)
    requires Inv(s) && c in s.calls && s.calls[c].Send?
    ensures !s.closed
  {
    hide Conserved, TakenOk, ExitsOk, Shutdown;
    ShutdownAt(s, c);
  }

  lemma InvStep(s: State, a: Step)
    requires Inv(s) && Enabled(s, a)
    ensures Inv(Do(s, a))
  {
    hide Shutdown, Conserved, TakenOk, ExitsOk;
    ShutdownKept(s, a);
    ConservedKept(s, a);
    TakenKept(s, a);
    ExitsKept(s, a);
  }

  lemma {:induction false} LossesAlongRun(s: State, steps: seq<Step>, t: State)
    requires Inv(s) && Run(s, steps, t)
    ensures Lost(t) == Lost(s) + Refused(s, steps)
    ensures EnqueuedCalls(t) == EnqueuedCalls(s) + Sent(s, steps)
    decreases |steps|
  {
    hide Inv, Enabled, Do, Lost, EnqueuedCalls, Refuses, Sends;
    if steps == [] {
    } else {
      StepLosesExactly(s, steps[0]);
      InvStep(s, steps[0]);
      LossesAlongRun(Do(s, steps[0]), steps[1..], t);
    }
  }

  /** In every run the calls that were dropped, or are about to be counted as dropped, are exactly
      those that saw the flag down or found `cap` payloads in the channel; the payloads enqueued
      are exactly those that were handed over or found room; the counter counts the former. */
  lemma DroppedExactly(cap: nat, steps: seq<Step>, t: State)
    requires Run(Init(cap), steps, t)
    ensures (set c | c in t.calls && (Uncounted(t.calls[c]) || (Resolved(t.calls[c]) && !t.calls[c].sent)))
            == Refused(Init(cap), steps)
    ensures (set c | c in t.enqueued) == Sent(Init(cap), steps)
    ensures t.dropped == |set c | c in t.calls && Resolved(t.calls[c]) && !t.calls[c].sent|
  {
    hide Run, Refused, Sent, Shutdown, TakenOk, ExitsOk;
    InitInv(cap);
    InvAlongRun(Init(cap), steps, t);
    LossesAlongRun(Init(cap), steps, t);
    CountsDropped(t);
    assert Lost(Init(cap)) == {} && EnqueuedCalls(Init(cap)) == {};
  }

  lemma CountsDropped(t: State)
    requires Conserved(t)
    ensures t.dropped == |set c | c in t.calls && Resolved(t.calls[c]) && !t.calls[c].sent|
    ensures (set c | c in t.enqueued) == EnqueuedCalls(t)
  {
    assert DroppedCalls(t) == set c | c in t.calls && Resolved(t.calls[c]) && !t.calls[c].sent;
  }

  // ---------------------------------------------------------------------
  // What callers may rely on
  // ---------------------------------------------------------------------

  /** While nobody drains and there were no more calls than the buffer holds, a send finds room. */
  lemma SendFindsRoom(s: State, a: Step)
    requires Inv(s) && Enabled(s, a) && s.accepting && |s.calls| <= s.cap
    ensures !Refuses(s, a)
  {
    if a.Advance? && s.calls[a.c].Send? {
      var c := a.c;
      ChannelOthers(s, c);
    }
  }

  lemma ChannelOthers(s: State, c: Call)
    requires Conserved(s) && c in s.calls && s.calls[c].Send?
    ensures |s.channel| < |s.calls|
  {
    hide DroppedCalls;
    var n := |s.taken|;
    assert NoDuplicates(s.channel) by {
      forall i, j | 0 <= i < j < |s.channel| ensures s.channel[i] != s.channel[j] {
        assert s.enqueued[n + i] == s.channel[i] && s.enqueued[n + j] == s.channel[j];
      }
    }
    DistinctCount(s.channel);
    forall d | d in Elements(s.channel) ensures d in s.calls.Keys - {c} {
      assert d in s.enqueued;
      assert d in Elements(s.enqueued);
    }
    SubsetSize(Elements(s.channel), s.calls.Keys - {c});
    assert |s.calls| == |s.calls.Keys|;
  }

  lemma SubsetSize(a: set<Call>, b: set<Call>)
    requires a <= b
    ensures |a| <= |b|
  {
    assert b == a + (b - a);
  }

  lemma CallsGrow(s: State, a: Step)
    requires Enabled(s, a)
    ensures Do(s, a).accepting ==> s.accepting
    ensures |s.calls| <= |Do(s, a).calls|
  {
    var t := Do(s, a);
    assert |s.calls| == |s.calls.Keys| && |t.calls| == |t.calls.Keys|;
    SubsetSize(s.calls.Keys, t.calls.Keys);
  }

  lemma {:induction false} NobodyRefused(s: State, steps: seq<Step>, t: State)
    requires Inv(s) && Run(s, steps, t) && t.accepting && |t.calls| <= s.cap
    ensures Refused(s, steps) == {} && s.accepting && |s.calls| <= |t.calls|
    decreases |steps|
  {
    hide Inv, Enabled, Refuses;
    if steps == [] {
    } else {
      var u := Do(s, steps[0]);
      hide Do;
      InvStep(s, steps[0]);
      NobodyRefused(u, steps[1..], t);
      CallsGrow(s, steps[0]);
      SendFindsRoom(s, steps[0]);
    }
  }

  /** Before `Drain`, and with no more calls than the buffer holds, nothing is dropped: every call
      that has made its choice is enqueued. */
  lemma NothingDropped(cap: nat, steps: seq<Step>, t: State)
    requires Run(Init(cap), steps, t) && t.accepting && |t.calls| <= cap
    ensures t.dropped == 0
    ensures forall c :: c in t.calls ==> !Uncounted(t.calls[c]) && (Resolved(t.calls[c]) ==> c in t.enqueued)
  {
    hide Run, Refused, Sent, Inv;
    InitInv(cap);
    NobodyRefused(Init(cap), steps, t);
    LossesAlongRun(Init(cap), steps, t);
    InvAlongRun(Init(cap), steps, t);
    NoneLost(t);
  }

  lemma NoneLost(t: State)
    requires Inv(t) && Lost(t) == {}
    ensures t.dropped == 0
    ensures forall c :: c in t.calls ==> !Uncounted(t.calls[c]) && (Resolved(t.calls[c]) ==> c in t.enqueued)
  {
    hide Shutdown, TakenOk, ExitsOk;
    forall c | c in t.calls ensures !Uncounted(t.calls[c]) && (Resolved(t.calls[c]) ==> c in t.enqueued) {
      assert c !in Lost(t);
      if Resolved(t.calls[c]) {
        assert c in EnqueuedCalls(t);
        assert c in Elements(t.enqueued);
      }
    }
    assert DroppedCalls(t) <= Lost(t);
  }

  /** A call that came after `Drain` is never enqueued. */
  lemma {:induction false} LateCallsDropped(s: State, steps: seq<Step>, t: State, c: Call)
    requires Run(s, steps, t) && !s.accepting && (c in s.calls ==> Late(s.calls[c])) && c !in s.enqueued
    ensures c !in t.enqueued && (c in t.calls ==> Late(t.calls[c]))
    decreases |steps|
  {
    if steps == [] {
    } else {
      LateStep(s, steps[0], c);
      hide Do;
      LateCallsDropped(Do(s, steps[0]), steps[1..], t, c);
    }
  }

  predicate Late(pc: Pc) {
    pc.FirstCheck? || pc.CountRefused? || pc == Finished(false)
  }

  lemma LateStep(s: State, a: Step, c: Call)
    requires Enabled(s, a) && !s.accepting && (c in s.calls ==> Late(s.calls[c])) && c !in s.enqueued
    ensures var t := Do(s, a); !t.accepting && (c in t.calls ==> Late(t.calls[c])) && c !in t.enqueued
  {
    if a.Advance? {
      LateMove(s, a.c, c);
    }
  }

  lemma LateMove(s: State, d: Call, c: Call)
    requires d in s.calls && !s.calls[d].Finished? && !s.accepting
    requires (c in s.calls ==> Late(s.calls[c])) && c !in s.enqueued
    ensures var t := AdvanceCall(s, d); !t.accepting && (c in t.calls ==> Late(t.calls[c])) && c !in t.enqueued
  {
  }
}
