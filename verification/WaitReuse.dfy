/** When the wait group of `proxy/internal/span/dispatch.go` panics.

    A call that passed its first check before `Drain` flipped the flag may register as late as
    it likes. If it does so while `Wait` has a waiter and the counter has come down to zero, or
    before `Wait` has looked again, the program panics. This module says exactly from which
    states that can happen. */
module WaitReuse {
  import opened Dispatcher

  /** The calls that are about to call `dispatchWG.Add`. */
  ghost function Registering(s: State): set<Call> {
    set c | c in s.calls && s.calls[c].Register?
  }

  /** Whether some continuation panics. Once the flag is down no further call gets to `Add`, so
      only those already there matter. */
  ghost predicate MayPanic(s: State) {
    match s.drain
    case NotCalled => true
    case AtWait => Registering(s) != {} && s.wg + |Registering(s)| >= 2
    case Asleep => Registering(s) != {}
    case Woken => s.wg > 0 || Registering(s) != {}
    case _ => false
  }

  /** Some run from `s` ends in a panic. */
  ghost predicate CanPanic(s: State) {
    exists steps, t :: Run(s, steps, t) && t.panic != NoPanic
  }

  // ---------------------------------------------------------------------
  // States from which nothing panics
  // ---------------------------------------------------------------------

  lemma RegisteringAfterMove(s: State, t: State, c: Call)
    requires c in t.calls && t.calls == s.calls[c := t.calls[c]]
    ensures Registering(t) == if t.calls[c].Register? then Registering(s) + {c} else Registering(s) - {c}
  {
  }

  /** No further call gets to `Add`, and one that leaves it leaves the others there. */
  lemma RegisteringShrinks(s: State, a: Step)
    requires Shutdown(s) && Enabled(s, a) && !s.accepting
    ensures var t := Do(s, a);
            if a.Advance? && s.calls[a.c].Register? && t.panic == NoPanic
            then Registering(t) == Registering(s) - {a.c} && a.c in Registering(s)
                && |Registering(t)| == |Registering(s)| - 1
            else Registering(t) == Registering(s)
  {
    hide Shutdown, Registering;
    if a.Advance? {
      RegisteringAfterCall(s, a.c);
    } else if a.HandOff? || a.Invoke? {
      RegisteringAfterMove(s, Do(s, a), a.c);
      RegisteringHas(s, a.c);
    } else {
      RegisteringSame(s, Do(s, a));
    }
  }

  lemma RegisteringSame(s: State, t: State)
    requires t.calls == s.calls
    ensures Registering(t) == Registering(s)
  {
  }

  lemma RegisteringHas(s: State, c: Call)
    ensures c in Registering(s) <==> c in s.calls && s.calls[c].Register?
    ensures c !in Registering(s) ==> Registering(s) - {c} == Registering(s)
    ensures c in Registering(s) ==> |Registering(s) - {c}| == |Registering(s)| - 1
  {
  }

  lemma RegisteringAfterCall(s: State, c: Call)
    requires c in s.calls && !s.calls[c].Finished? && !s.accepting && s.panic == NoPanic
    ensures var t := AdvanceCall(s, c);
            if s.calls[c].Register? && t.panic == NoPanic
            then Registering(t) == Registering(s) - {c} && c in Registering(s)
                && |Registering(t)| == |Registering(s)| - 1
            else Registering(t) == Registering(s)
  {
    hide Registering;
    var t := AdvanceCall(s, c);
    RegisteringHas(s, c);
    if t.calls == s.calls { RegisteringSame(s, t); } else { RegisteringAfterMove(s, t, c); }
  }

  lemma SafeStep(s: State, a: Step)
    requires Inv(s) && Enabled(s, a) && !MayPanic(s)
    ensures Do(s, a).panic == NoPanic && !MayPanic(Do(s, a))
  {
    hide RegisteredCalls, WakingCalls, Registering, Conserved, TakenOk, ExitsOk, NobodyAtSend;
    RegisteringShrinks(s, a);
    if a.Advance? {
      ShutdownCall(s, a.c);
      ShutdownAt(s, a.c);
      SafeCall(s, a.c);
    }
  }

  lemma SafeCall(s: State, c: Call)
    requires Shutdown(s) && Enabled(s, Advance(c)) && !MayPanic(s)
    ensures AdvanceCall(s, c).panic == NoPanic && !MayPanic(AdvanceCall(s, c))
  {
    hide RegisteredCalls, WakingCalls, NobodyAtSend;
    RegisteringShrinks(s, Advance(c));
    ShutdownCall(s, c);
    ShutdownAt(s, c);
    hide Registering;
  }

  lemma {:induction false} SafeRun(s: State, steps: seq<Step>, t: State)
    requires Inv(s) && s.panic == NoPanic && !MayPanic(s) && Run(s, steps, t)
    ensures t.panic == NoPanic
    decreases |steps|
  {
    hide Inv, MayPanic, Enabled, Do;
    if steps == [] {
    } else {
      SafeStep(s, steps[0]);
      InvStep(s, steps[0]);
      SafeRun(Do(s, steps[0]), steps[1..], t);
    }
  }

  lemma InvStep(s: State, a: Step)
    requires Inv(s) && Enabled(s, a)
    ensures Inv(Do(s, a))
  {
    hide Shutdown, Conserved, TakenOk, ExitsOk;
    ShutdownKept(s, a);
    ConservedKept(s, a);
    TakenKept(s, a);
    ExitsKept(s, a);
  }

  // ---------------------------------------------------------------------
  // States from which some run panics
  // ---------------------------------------------------------------------

  lemma {:induction false} Extend(s: State, steps: seq<Step>, t: State, a: Step)
    requires Run(s, steps, t) && Enabled(t, a)
    ensures Run(s, steps + [a], Do(t, a))
    decreases |steps|
  {
    hide Enabled, Do;
    if steps == [] {
      assert Run(Do(s, a), [], Do(t, a));
      assert ([] + [a])[1..] == [];
    } else {
      Extend(Do(s, steps[0]), steps[1..], t, a);
      assert (steps + [a])[1..] == steps[1..] + [a];
    }
  }

  /** A reached state from which the run goes on. */
  ghost predicate Reached(s: State, steps: seq<Step>, t: State) {
    Run(s, steps, t) && Inv(t) && t.panic == NoPanic
  }

  lemma Onward(s: State, steps: seq<Step>, t: State, a: Step) returns (more: seq<Step>)
    requires Reached(s, steps, t) && Enabled(t, a)
    ensures Run(s, more, Do(t, a))
    ensures Do(t, a).panic == NoPanic ==> Reached(s, more, Do(t, a))
  {
    hide Run, Inv, Do, Enabled;
    Extend(s, steps, t, a);
    InvStep(t, a);
    more := steps + [a];
  }

  /** Registered call `c` runs to the point where it has lowered the counter. */
  lemma {:induction false} FinishOne(s: State, before: seq<Step>, u: State, c: Call, d: Call)
    returns (steps: seq<Step>, t: State)
    requires Reached(s, before, u) && u.drain.Asleep?
    requires c in u.calls && Registered(u.calls[c]) && d in u.calls && u.calls[d].Register?
    ensures Reached(s, steps, t) && t.drain.Asleep? && t.wg == u.wg - 1 && d in t.calls && t.calls[d].Register?
    decreases Rank(u.calls[c])
  {
    hide Run, Conserved, TakenOk, ExitsOk, RegisteredCalls, WakingCalls, NobodyAtSend;
    ShutdownCall(u, c);
    ShutdownAt(u, c);
    RankDown(u, c);
    steps := Onward(s, before, u, Advance(c));
    t := Do(u, Advance(c));
    if u.calls[c].Release? {
    } else {
      steps, t := FinishOne(s, steps, t, c, d);
    }
  }

  lemma {:induction false} FinishAll(s: State, before: seq<Step>, u: State, d: Call)
    returns (steps: seq<Step>, t: State)
    requires Reached(s, before, u) && u.drain.Asleep? && d in u.calls && u.calls[d].Register?
    ensures Reached(s, steps, t) && Overdue(t) && d in t.calls && t.calls[d].Register?
    decreases u.wg
  {
    hide Run, Conserved, TakenOk, ExitsOk, WakingCalls, NobodyAtSend;
    if u.wg == 0 {
      steps, t := before, u;
    } else {
      var c :| c in RegisteredCalls(u);
      steps, t := FinishOne(s, before, u, c, d);
      steps, t := FinishAll(s, steps, t, d);
    }
  }

  /** Under a waiter: the others finish, then `d` registers. */
  lemma AsleepPanics(s: State, before: seq<Step>, u: State, d: Call) returns (steps: seq<Step>, t: State)
    requires Reached(s, before, u) && u.drain.Asleep? && d in u.calls && u.calls[d].Register?
    ensures Run(s, steps, t) && t.panic == AddDuringWait
  {
    hide Run, Inv;
    steps, t := FinishAll(s, before, u, d);
    steps := Onward(s, steps, t, Advance(d));
    t := Do(t, Advance(d));
  }

  /** Before `Wait` has looked: if somebody is registered, or one of two callers registers, it
      becomes a waiter. */
  lemma AtWaitPanics(s: State, before: seq<Step>, u: State, d: Call) returns (steps: seq<Step>, t: State)
    requires Reached(s, before, u) && u.drain.AtWait? && d in Registering(u) && u.wg + |Registering(u)| >= 2
    ensures Run(s, steps, t) && t.panic == AddDuringWait
  {
    hide Run, Conserved, TakenOk, ExitsOk, RegisteredCalls, WakingCalls, NobodyAtSend;
    steps, t := before, u;
    if u.wg == 0 {
      var e := Another(Registering(u), d);
      steps := Onward(s, steps, t, Advance(e));
      t := Do(t, Advance(e));
    }
    steps := Onward(s, steps, t, AdvanceDrain);
    t := Do(t, AdvanceDrain);
    steps, t := AsleepPanics(s, steps, t, d);
  }

  lemma Another(calls: set<Call>, d: Call) returns (e: Call)
    requires d in calls && |calls| >= 2
    ensures e in calls && e != d
  {
    assert |calls - {d}| >= 1;
    e :| e in calls - {d};
  }

  lemma WokenPanics(s: State, before: seq<Step>, u: State) returns (steps: seq<Step>, t: State)
    requires Reached(s, before, u) && u.drain.Woken? && (u.wg > 0 || Registering(u) != {})
    ensures Run(s, steps, t) && t.panic == WaitReused
  {
    hide Run, Conserved, TakenOk, ExitsOk, RegisteredCalls, WakingCalls, NobodyAtSend;
    steps, t := before, u;
    if u.wg == 0 {
      var d :| d in Registering(u);
      steps := Onward(s, steps, t, Advance(d));
      t := Do(t, Advance(d));
    }
    steps := Onward(s, steps, t, AdvanceDrain);
    t := Do(t, AdvanceDrain);
  }

  lemma {:induction false} Bound(calls: set<Call>) returns (b: Call)
    ensures forall c :: c in calls ==> c < b
  {
    if calls == {} {
      b := 0;
    } else {
      var c :| c in calls;
      var rest := Bound(calls - {c});
      b := rest + c + 1;
      assert forall x :: x in calls ==> x == c || x in calls - {c};
    }
  }

  /** While `Dispatch` accepts: two fresh calls, one registered and one about to. */
  lemma OpenPanics(s: State, before: seq<Step>, u: State) returns (steps: seq<Step>, t: State)
    requires Reached(s, before, u) && u.drain.NotCalled?
    ensures Run(s, steps, t) && t.panic == AddDuringWait
  {
    hide Run, Conserved, TakenOk, ExitsOk, RegisteredCalls, WakingCalls, NobodyAtSend;
    var c := Bound(u.calls.Keys);
    var d := c + 1;
    steps, t := TwoArrive(s, before, u, c, d);
    steps := Onward(s, steps, t, CallDrain);
    t := Do(t, CallDrain);
    var pending := Registering(t);
    assert d in pending && |pending| >= 1 by { assert {d} <= pending; assert pending == {d} + (pending - {d}); }
    steps, t := AtWaitPanics(s, steps, t, d);
  }

  lemma TwoArrive(s: State, before: seq<Step>, u: State, c: Call, d: Call) returns (steps: seq<Step>, t: State)
    requires Reached(s, before, u) && u.drain.NotCalled? && c !in u.calls && d !in u.calls && c != d
    ensures Reached(s, steps, t) && t.drain.NotCalled? && t.wg == u.wg + 1
    ensures d in t.calls && t.calls[d].Register?
  {
    hide Run, Conserved, TakenOk, ExitsOk, RegisteredCalls, WakingCalls, NobodyAtSend;
    steps := Onward(s, before, u, Invoke(c));
    t := Do(u, Invoke(c));
    steps := Onward(s, steps, t, Advance(c));
    t := Do(t, Advance(c));
    steps := Onward(s, steps, t, Advance(c));
    t := Do(t, Advance(c));
    steps := Onward(s, steps, t, Invoke(d));
    t := Do(t, Invoke(d));
    steps := Onward(s, steps, t, Advance(d));
    t := Do(t, Advance(d));
  }

  lemma SomeRunPanics(s: State) returns (steps: seq<Step>, t: State)
    requires Inv(s) && s.panic == NoPanic && MayPanic(s)
    ensures Run(s, steps, t) && t.panic != NoPanic
  {
    hide Inv;
    assert Reached(s, [], s);
    match s.drain
    case NotCalled => steps, t := OpenPanics(s, [], s);
    case AtWait =>
      var d :| d in Registering(s);
      steps, t := AtWaitPanics(s, [], s, d);
    case Asleep =>
      var d :| d in Registering(s);
      steps, t := AsleepPanics(s, [], s, d);
    case Woken => steps, t := WokenPanics(s, [], s);
  }

  // ---------------------------------------------------------------------
  // Exactly when
  // ---------------------------------------------------------------------

  /** From a reachable state some continuation panics if and only if `Drain` is not called yet,
      or it is inside `Wait` and a call between its first check and `Add` can still get in its
      way, or has. */
  lemma PanicsExactly(cap: nat, before: seq<Step>, s: State)
    requires Run(Init(cap), before, s) && s.panic == NoPanic
    ensures CanPanic(s) <==> MayPanic(s)
  {
    hide MayPanic, Inv, Run;
    InitInv(cap);
    InvAlongRun(Init(cap), before, s);
    if MayPanic(s) {
      var steps, t := SomeRunPanics(s);
    } else {
      forall steps, t | Run(s, steps, t) ensures t.panic == NoPanic {
        SafeRun(s, steps, t);
      }
    }
  }

  /** A `Drain` that is called now cannot panic if and only if no call is between its first check
      and `Add`, or a single one is and nobody is registered. */
  lemma DrainSafeExactly(cap: nat, before: seq<Step>, s: State)
    requires Run(Init(cap), before, s) && s.panic == NoPanic && s.drain.NotCalled?
    ensures Enabled(s, CallDrain)
    ensures !CanPanic(Do(s, CallDrain)) <==> Registering(s) == {} || (|Registering(s)| == 1 && s.wg == 0)
  {
    hide CanPanic, RegisteredCalls, WakingCalls, NobodyAtSend, Conserved, TakenOk, ExitsOk, Run;
    InitInv(cap);
    InvAlongRun(Init(cap), before, s);
    Extend(Init(cap), before, s, CallDrain);
    PanicsExactly(cap, before + [CallDrain], Do(s, CallDrain));
    assert Registering(Do(s, CallDrain)) == Registering(s);
    if Registering(s) != {} {
      var d :| d in Registering(s);
      assert Registering(s) == {d} + (Registering(s) - {d});
    }
  }

  // ---------------------------------------------------------------------
  // The window
  // ---------------------------------------------------------------------

  /** The counter has fallen to zero under the waiter and `Wait` has not returned. */
  predicate InWindow(s: State) {
    Overdue(s) || s.drain.Woken?
  }

  predicate Registers(s: State, a: Step) {
    a.Advance? && a.c in s.calls && s.calls[a.c].Register?
  }

  /** No call registers inside the window. */
  ghost predicate WindowKept(s: State, steps: seq<Step>)
    decreases |steps|
  {
    steps == [] || (
      && Enabled(s, steps[0])
      && !(Registers(s, steps[0]) && InWindow(s))
      && WindowKept(Do(s, steps[0]), steps[1..]))
  }

  /** The step that panics: an `Add` under an overdue waiter, or the return of a `Wait` that woke
      to a counter that is not zero. */
  lemma StepPanicsExactly(s: State, a: Step)
    requires Inv(s) && Enabled(s, a)
    ensures Do(s, a).panic != NoPanic
            <==> (Registers(s, a) && Overdue(s)) || (a.AdvanceDrain? && s.drain.Woken? && s.wg > 0)
  {
    hide RegisteredCalls, WakingCalls, Conserved, TakenOk, ExitsOk, NobodyAtSend;
    if a.Advance? { ShutdownCall(s, a.c); }
  }

  lemma {:induction false} WindowKeptRun(s: State, steps: seq<Step>, t: State)
    requires Inv(s) && s.panic == NoPanic && (s.drain.Woken? ==> s.wg == 0)
    requires Run(s, steps, t) && WindowKept(s, steps)
    ensures t.panic == NoPanic
    decreases |steps|
  {
    if steps == [] {
    } else {
      var a := steps[0];
      StepPanicsExactly(s, a);
      InvStep(s, a);
      WokenAtZero(s, a);
      hide Inv, Enabled, Do;
      WindowKeptRun(Do(s, a), steps[1..], t);
    }
  }

  lemma WokenAtZero(s: State, a: Step)
    requires Inv(s) && Enabled(s, a) && (s.drain.Woken? ==> s.wg == 0) && !(Registers(s, a) && InWindow(s))
    ensures Do(s, a).drain.Woken? ==> Do(s, a).wg == 0
  {
    hide RegisteredCalls, WakingCalls, Conserved, TakenOk, ExitsOk, NobodyAtSend;
    if a.Advance? { ShutdownAt(s, a.c); }
  }

  /** A run in which no call registers inside the window does not panic; and one that registers
      there panics at once or in some continuation. */
  lemma WindowDecides(cap: nat, steps: seq<Step>, t: State)
    requires Run(Init(cap), steps, t)
    ensures WindowKept(Init(cap), steps) ==> t.panic == NoPanic
    ensures forall a :: t.panic == NoPanic && Enabled(t, a) && Registers(t, a) && InWindow(t) ==>
              Do(t, a).panic != NoPanic || CanPanic(Do(t, a))
  {
    hide Run, WindowKept, CanPanic;
    InitInv(cap);
    InvAlongRun(Init(cap), steps, t);
    if WindowKept(Init(cap), steps) { WindowKeptRun(Init(cap), steps, t); }
    forall a | t.panic == NoPanic && Enabled(t, a) && Registers(t, a) && InWindow(t)
      ensures Do(t, a).panic != NoPanic || CanPanic(Do(t, a))
    {
      if Do(t, a).panic == NoPanic {
        Extend(Init(cap), steps, t, a);
        assert Do(t, a).drain.Woken? && Do(t, a).wg > 0 by { hide Conserved, TakenOk, ExitsOk; }
        PanicsExactly(cap, steps + [a], Do(t, a));
      }
    }
  }

  /** Two calls and `Drain`: call 0 is registered and `Wait` sleeps; call 0 is refused, lowers the
      counter to zero, and call 1, which passed its first check long ago, registers. */
  lemma TwoCallsPanic(cap: nat) returns (t: State)
    ensures Run(Init(cap), TwoCallsPrefix() + [Advance(1)], t) && t.panic == AddDuringWait
  {
    hide Run, Init, TwoCallsStart;
    t := TwoCallsOverdue(cap);
    Extend(Init(cap), TwoCallsPrefix(), t, Advance(1));
    t := Do(t, Advance(1));
  }

  /** If call 0 first wakes the waiter, `Wait` panics instead. */
  lemma TwoCallsReuse(cap: nat) returns (t: State)
    ensures Run(Init(cap), TwoCallsPrefix() + [Advance(0)] + [Advance(1)] + [AdvanceDrain], t) && t.panic == WaitReused
  {
    hide Run;
    t := TwoCallsOverdue(cap);
    Extend(Init(cap), TwoCallsPrefix(), t, Advance(0));
    t := Do(t, Advance(0));
    Extend(Init(cap), TwoCallsPrefix() + [Advance(0)], t, Advance(1));
    t := Do(t, Advance(1));
    Extend(Init(cap), TwoCallsPrefix() + [Advance(0)] + [Advance(1)], t, AdvanceDrain);
    t := Do(t, AdvanceDrain);
  }

  /** Call 0 registers, call 1 passes its first check, and `Drain` goes to sleep. */
  function TwoCallsStart(): seq<Step> {
    [] + [Invoke(0)] + [Invoke(1)] + [Advance(0)] + [Advance(0)] + [Advance(1)] + [CallDrain] + [AdvanceDrain]
  }

  function TwoCallsPrefix(): seq<Step> {
    TwoCallsStart() + [Advance(0)] + [Advance(0)] + [Advance(0)]
  }

  lemma TwoCallsBegun(cap: nat) returns (t: State)
    ensures Run(Init(cap), [Invoke(0), Invoke(1), Advance(0), Advance(0)], t)
    ensures t == Init(cap).(calls := map[0 := SecondCheck, 1 := FirstCheck], wg := 1)
  {
    var s := Init(cap);
    assert Run(s, [], s);
    hide Run;
    var before: seq<Step>;
    before, t := [], s;
    Extend(s, before, t, Invoke(0));
    before, t := before + [Invoke(0)], Do(t, Invoke(0));
    Extend(s, before, t, Invoke(1));
    before, t := before + [Invoke(1)], Do(t, Invoke(1));
    Extend(s, before, t, Advance(0));
    before, t := before + [Advance(0)], Do(t, Advance(0));
    Extend(s, before, t, Advance(0));
    before, t := before + [Advance(0)], Do(t, Advance(0));
    assert before == [Invoke(0), Invoke(1), Advance(0), Advance(0)];
  }

  lemma TwoCallsAsleep(cap: nat) returns (t: State)
    ensures Run(Init(cap), TwoCallsStart(), t) && t.panic == NoPanic && t.drain.Asleep? && t.wg == 1 && !t.accepting
    ensures 0 in t.calls && t.calls[0].SecondCheck? && 1 in t.calls && t.calls[1].Register?
  {
    hide Run;
    var s, before := Init(cap), [Invoke(0), Invoke(1), Advance(0), Advance(0)];
    t := TwoCallsBegun(cap);
    Extend(s, before, t, Advance(1));
    before, t := before + [Advance(1)], Do(t, Advance(1));
    Extend(s, before, t, CallDrain);
    before, t := before + [CallDrain], Do(t, CallDrain);
    Extend(s, before, t, AdvanceDrain);
    before, t := before + [AdvanceDrain], Do(t, AdvanceDrain);
    assert before == TwoCallsStart();
  }

  lemma TwoCallsOverdue(cap: nat) returns (t: State)
    ensures Run(Init(cap), TwoCallsPrefix(), t) && t.panic == NoPanic && Overdue(t)
    ensures 0 in t.calls && t.calls[0] == Waking(false) && 1 in t.calls && t.calls[1].Register?
  {
    hide Run, Init, TwoCallsStart;
    var s, before := Init(cap), TwoCallsStart();
    t := TwoCallsAsleep(cap);
    Extend(s, before, t, Advance(0));
    before, t := before + [Advance(0)], Do(t, Advance(0));
    Extend(s, before, t, Advance(0));
    before, t := before + [Advance(0)], Do(t, Advance(0));
    Extend(s, before, t, Advance(0));
    before, t := before + [Advance(0)], Do(t, Advance(0));
  }
}
