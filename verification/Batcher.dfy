/** The last-used batcher of `processing/internal/service/last_used_batcher.go`: one goroutine
    that coalesces ids and any number of `Touch` calls beside it, as interleaved steps. */
module Batcher {

  type Id = nat

  const BUFFER_SIZE: nat := 1024

  /** A call of `UpdateBatch`; `draining` when it is the last one, on shutdown. */
  datatype Batch = Batch(ids: seq<Id>, draining: bool)

  /** Where the goroutine is. A flush calls the updater and then clears `pending`; other
      goroutines run in between. */
  datatype Pc = Looping | Draining | MustUpdate(last: bool) | MustClear(last: bool) | Returned

  /** `accepted`, `batches`, `refused` and `reported` record the history; `received` counts the
      ids taken from the inbox and `checked` the ids accepted when the inbox was last found empty. */
  datatype State = State(
    maxBatch: int,
    inbox: seq<Id>,
    pending: set<Id>,
    dropped: nat,
    cancelled: bool,
    pc: Pc,
    accepted: seq<Id>,
    received: nat,
    batches: seq<Batch>,
    refused: nat,
    reported: nat,
    checked: nat)

  datatype Step =
    | Touch(id: Id)
    | Cancel
    | Receive
    | Tick
    | SeeDone
    | FindEmpty
    | Update(ids: seq<Id>)     // the map is iterated in any order
    | Clear

  function Init(maxBatch: int): State {
    State(maxBatch, [], {}, 0, false, Looping, [], 0, [], 0, 0, 0)
  }

  ghost predicate Enabled(s: State, a: Step) {
    match a
    case Touch(_) => true
    case Cancel => true
    case Receive => (s.pc.Looping? || s.pc.Draining?) && s.inbox != []
    case Tick => s.pc.Looping?
    case SeeDone => s.pc.Looping? && s.cancelled
    case FindEmpty => s.pc.Draining? && s.inbox == []
    case Update(ids) => s.pc.MustUpdate? && Distinct(ids) && Members(ids) == s.pending
    case Clear => s.pc.MustClear?
  }

  /** Where a flush starts; with nothing pending it is over at once. */
  function Flush(pending: set<Id>, last: bool): Pc {
    if pending != {} then MustUpdate(last) else if last then Returned else Looping
  }

  function Do(s: State, a: Step): State
    requires Enabled(s, a)
  {
    match a
    case Touch(id) =>
      if |s.inbox| < BUFFER_SIZE then s.(inbox := s.inbox + [id], accepted := s.accepted + [id])
      else s.(dropped := s.dropped + 1, refused := s.refused + 1)
    case Cancel => s.(cancelled := true)
    case Receive =>
      var pending := s.pending + {s.inbox[0]};
      s.(inbox := s.inbox[1..], pending := pending, received := s.received + 1,
         pc := if s.pc.Looping? && |pending| >= s.maxBatch then Flush(pending, false) else s.pc)
    case Tick => s.(pc := Flush(s.pending, false))
    case SeeDone => s.(pc := Draining)
    case FindEmpty => s.(pc := Flush(s.pending, true), checked := |s.accepted|)
    case Update(ids) => s.(batches := s.batches + [Batch(ids, s.pc.last)], pc := MustClear(s.pc.last))
    case Clear =>
      s.(pending := {}, dropped := 0, reported := s.reported + s.dropped, pc := if s.pc.last then Returned else Looping)
  }

  ghost predicate Run(s: State, steps: seq<Step>, t: State)
    decreases |steps|
  {
    if steps == [] then t == s
    else Enabled(s, steps[0]) && Run(Do(s, steps[0]), steps[1..], t)
  }

  // ---------------------------------------------------------------------
  // The invariant
  // ---------------------------------------------------------------------

  ghost predicate Distinct(ids: seq<Id>) {
    forall i, j :: 0 <= i < j < |ids| ==> ids[i] != ids[j]
  }

  ghost function Members(ids: seq<Id>): set<Id> {
    set id | id in ids
  }

  /** The ids passed to `UpdateBatch` so far. */
  ghost function Written(batches: seq<Batch>): set<Id> {
    if batches == [] then {} else Written(batches[..|batches| - 1]) + Members(batches[|batches| - 1].ids)
  }

  function Cap(maxBatch: int): nat {
    if maxBatch < 1 then 1 else maxBatch
  }

  /** Nothing is lost: every accepted id is in the inbox, pending, or written. */
  ghost predicate Conserved(s: State) {
    && s.received <= |s.accepted|
    && s.inbox == s.accepted[s.received..]
    && Members(s.accepted[..s.received]) == s.pending + Written(s.batches)
    && (s.pc.MustClear? ==> s.pending <= Written(s.batches))
  }

  ghost predicate BatchesOk(s: State) {
    forall i :: 0 <= i < |s.batches| ==>
      Distinct(s.batches[i].ids) && (!s.batches[i].draining ==> |s.batches[i].ids| <= Cap(s.maxBatch))
  }

  ghost predicate Bounds(s: State) {
    && |s.inbox| <= BUFFER_SIZE
    && (s.pc.Looping? ==> |s.pending| < Cap(s.maxBatch))
    && (s.pc.MustUpdate? && !s.pc.last ==> |s.pending| <= Cap(s.maxBatch))
    && s.refused == s.dropped + s.reported
  }

  /** After the last check of the inbox nothing more is received. */
  ghost predicate Ended(s: State) {
    && ((s.pc.MustUpdate? || s.pc.MustClear?) && s.pc.last ==> s.checked == s.received)
    && (s.pc.Returned? ==> s.checked == s.received && s.pending == {})
  }

  ghost predicate Inv(s: State) {
    Conserved(s) && BatchesOk(s) && Bounds(s) && Ended(s)
  }

  lemma MembersAppend(ids: seq<Id>, id: Id)
    ensures Members(ids + [id]) == Members(ids) + {id}
  {
  }

  lemma MembersSplit(ids: seq<Id>, k: nat)
    requires k <= |ids|
    ensures Members(ids) == Members(ids[..k]) + Members(ids[k..])
  {
  }

  lemma WrittenAppend(batches: seq<Batch>, b: Batch)
    ensures Written(batches + [b]) == Written(batches) + Members(b.ids)
  {
  }

  lemma {:induction false} SizeOfMembers(ids: seq<Id>)
    requires Distinct(ids)
    ensures |Members(ids)| == |ids|
  {
    if ids == [] {
    } else {
      var n := |ids| - 1;
      SizeOfMembers(ids[..n]);
      assert ids == ids[..n] + [ids[n]];
      MembersAppend(ids[..n], ids[n]);
      assert ids[n] !in Members(ids[..n]);
    }
  }

  lemma TouchKept(s: State, id: Id)
    requires Inv(s)
    ensures Inv(Do(s, Touch(id)))
  {
    hide Members, Written, Distinct;
    var t := Do(s, Touch(id));
    if |s.inbox| < BUFFER_SIZE {
      assert t.accepted[..s.received] == s.accepted[..s.received];
      assert t.accepted[s.received..] == s.accepted[s.received..] + [id];
    }
  }

  lemma {:induction false} ReceiveKept(s: State)
    requires Inv(s) && Enabled(s, Receive)
    ensures Inv(Do(s, Receive))
  {
    hide Members, Written, Distinct, BatchesOk;
    var t, id := Do(s, Receive), s.inbox[0];
    assert s.accepted[..s.received + 1] == s.accepted[..s.received] + [id];
    MembersAppend(s.accepted[..s.received], id);
    assert s.inbox[1..] == s.accepted[s.received + 1..];
    assert s.pending + {id} + Written(s.batches) == (s.pending + Written(s.batches)) + {id};
    assert |s.pending + {id}| <= |s.pending| + 1;
    assert BatchesOk(t) by { BatchesSame(s, t); }
  }

  lemma BatchesSame(s: State, t: State)
    requires BatchesOk(s) && t.batches == s.batches && t.maxBatch == s.maxBatch
    ensures BatchesOk(t)
  {
  }

  lemma UpdateKept(s: State, ids: seq<Id>)
    requires Inv(s) && Enabled(s, Update(ids))
    ensures Inv(Do(s, Update(ids)))
  {
    hide Members, Written, Distinct;
    WrittenAppend(s.batches, Batch(ids, s.pc.last));
    SizeOfMembers(ids);
    assert s.pending + (Written(s.batches) + s.pending) == s.pending + Written(s.batches);
  }

  lemma InvKept(s: State, a: Step)
    requires Inv(s) && Enabled(s, a)
    ensures Inv(Do(s, a)) && Do(s, a).maxBatch == s.maxBatch
  {
    hide Members, Written, Distinct;
    match a
    case Touch(id) => TouchKept(s, id);
    case Receive => ReceiveKept(s);
    case Update(ids) => UpdateKept(s, ids);
    case Clear => assert s.pending + Written(s.batches) == {} + Written(s.batches);
    case _ =>
  }

  lemma InitInv(maxBatch: int)
    ensures Inv(Init(maxBatch))
  {
  }

  lemma {:induction false} InvAlongRun(s: State, steps: seq<Step>, t: State)
    requires Inv(s) && Run(s, steps, t)
    ensures Inv(t) && t.maxBatch == s.maxBatch
    decreases |steps|
  {
    hide Inv, Enabled, Do;
    if steps == [] {
    } else {
      InvKept(s, steps[0]);
      InvAlongRun(Do(s, steps[0]), steps[1..], t);
    }
  }

  // ---------------------------------------------------------------------
  // Every run
  // ---------------------------------------------------------------------

  /** At every step the accepted ids are those in the inbox, pending, or already written; each
      refused `Touch` is counted until it is reported. */
  lemma TouchesConserved(maxBatch: int, steps: seq<Step>, t: State)
    requires Run(Init(maxBatch), steps, t)
    ensures Members(t.accepted) == Members(t.inbox) + t.pending + Written(t.batches)
    ensures t.refused == t.dropped + t.reported
    ensures |t.inbox| <= 1024
  {
    hide Run, Written;
    InitInv(maxBatch);
    InvAlongRun(Init(maxBatch), steps, t);
    MembersSplit(t.accepted, t.received);
  }

  /** The ids whose `Touch` came while the inbox held fewer than 1024, in order. */
  ghost function TouchedInTime(s: State, steps: seq<Step>): seq<Id>
    decreases |steps|
  {
    if steps == [] || !Enabled(s, steps[0]) then []
    else
      (if steps[0].Touch? && |s.inbox| < 1024 then [steps[0].id] else []) + TouchedInTime(Do(s, steps[0]), steps[1..])
  }

  /** How many came while it held 1024. */
  ghost function TouchedTooLate(s: State, steps: seq<Step>): nat
    decreases |steps|
  {
    if steps == [] || !Enabled(s, steps[0]) then 0
    else (if steps[0].Touch? && |s.inbox| >= 1024 then 1 else 0) + TouchedTooLate(Do(s, steps[0]), steps[1..])
  }

  /** A tick finds something pending, a received id fills a batch, or the drain ends with something
      pending. */
  ghost predicate CallsForFlush(s: State, a: Step)
    requires Enabled(s, a)
  {
    || (a.Tick? && s.pending != {})
    || (a.Receive? && s.pc.Looping? && |s.pending + {s.inbox[0]}| >= s.maxBatch)
    || (a.FindEmpty? && s.pending != {})
  }

  ghost function CallsForFlushes(s: State, steps: seq<Step>): nat
    decreases |steps|
  {
    if steps == [] || !Enabled(s, steps[0]) then 0
    else (if CallsForFlush(s, steps[0]) then 1 else 0) + CallsForFlushes(Do(s, steps[0]), steps[1..])
  }

  lemma TouchesUnfold(s: State, steps: seq<Step>)
    ensures steps == [] ==> TouchedInTime(s, steps) == [] && TouchedTooLate(s, steps) == 0
    ensures steps != [] && Enabled(s, steps[0]) ==>
              var a, t := steps[0], Do(s, steps[0]);
              && TouchedInTime(s, steps)
                 == (if a.Touch? && |s.inbox| < 1024 then [a.id] else []) + TouchedInTime(t, steps[1..])
              && TouchedTooLate(s, steps)
                 == (if a.Touch? && |s.inbox| >= 1024 then 1 else 0) + TouchedTooLate(t, steps[1..])
  {
  }

  lemma {:induction false} TouchesAlongRun(s: State, steps: seq<Step>, t: State)
    requires Run(s, steps, t)
    ensures t.accepted == s.accepted + TouchedInTime(s, steps)
    ensures t.refused == s.refused + TouchedTooLate(s, steps)
    decreases |steps|
  {
    hide TouchedInTime, TouchedTooLate, Enabled, Do;
    TouchesUnfold(s, steps);
    if steps == [] {
      assert s.accepted + [] == s.accepted;
    } else {
      TouchStep(s, steps[0]);
      TouchesAlongRun(Do(s, steps[0]), steps[1..], t);
    }
  }

  lemma TouchStep(s: State, a: Step)
    requires Enabled(s, a)
    ensures Do(s, a).accepted == s.accepted + (if a.Touch? && |s.inbox| < 1024 then [a.id] else [])
    ensures Do(s, a).refused == s.refused + (if a.Touch? && |s.inbox| >= 1024 then 1 else 0)
  {
    assert s.accepted + [] == s.accepted;
  }

  function Updates(s: State): nat {
    |s.batches| + (if s.pc.MustUpdate? then 1 else 0)
  }

  lemma {:induction false} FlushesAlongRun(s: State, steps: seq<Step>, t: State)
    requires Run(s, steps, t)
    ensures Updates(t) == Updates(s) + CallsForFlushes(s, steps)
    decreases |steps|
  {
    if steps == [] {
    } else {
      FlushStep(s, steps[0]);
      hide Enabled, Do, Updates, CallsForFlush;
      FlushesAlongRun(Do(s, steps[0]), steps[1..], t);
    }
  }

  lemma FlushStep(s: State, a: Step)
    requires Enabled(s, a)
    ensures Updates(Do(s, a)) == Updates(s) + (if CallsForFlush(s, a) then 1 else 0)
  {
    hide Members, Distinct;
  }

  /** In every run a `Touch` is refused exactly when it finds 1024 ids in the inbox; the others are
      accepted in order. */
  lemma RefusedExactly(maxBatch: int, steps: seq<Step>, t: State)
    requires Run(Init(maxBatch), steps, t)
    ensures t.accepted == TouchedInTime(Init(maxBatch), steps)
    ensures t.refused == TouchedTooLate(Init(maxBatch), steps)
  {
    hide Run;
    TouchesAlongRun(Init(maxBatch), steps, t);
    assert [] + TouchedInTime(Init(maxBatch), steps) == TouchedInTime(Init(maxBatch), steps);
  }

  /** In every run the updater is called, or is about to be, once for each tick with something
      pending, each id that fills a batch, and the end of a drain with something pending. */
  lemma UpdatesExactly(maxBatch: int, steps: seq<Step>, t: State)
    requires Run(Init(maxBatch), steps, t)
    ensures |t.batches| + (if t.pc.MustUpdate? then 1 else 0) == CallsForFlushes(Init(maxBatch), steps)
  {
    hide Run;
    FlushesAlongRun(Init(maxBatch), steps, t);
  }

  /** No batch holds an id twice, and only the batch of the shutdown drain may exceed `maxBatch`. */
  lemma BatchesBounded(maxBatch: int, steps: seq<Step>, t: State, i: nat)
    requires Run(Init(maxBatch), steps, t) && i < |t.batches|
    ensures Distinct(t.batches[i].ids)
    ensures t.batches[i].draining || |t.batches[i].ids| <= if maxBatch < 1 then 1 else maxBatch
  {
    hide Run, Written, Distinct;
    InitInv(maxBatch);
    InvAlongRun(Init(maxBatch), steps, t);
  }

  /** The goroutine has found the inbox empty for the last time. */
  predicate Past(s: State) {
    s.pc.Returned? || ((s.pc.MustUpdate? || s.pc.MustClear?) && s.pc.last)
  }

  lemma {:induction false} PastStays(s: State, steps: seq<Step>, t: State)
    requires Past(s) && Run(s, steps, t)
    ensures Past(t) && t.checked == s.checked && s.accepted <= t.accepted
    decreases |steps|
  {
    if steps == [] {
    } else {
      PastStep(s, steps[0]);
      hide Enabled, Do, Past;
      PastStays(Do(s, steps[0]), steps[1..], t);
    }
  }

  lemma PastStep(s: State, a: Step)
    requires Past(s) && Enabled(s, a)
    ensures Past(Do(s, a)) && Do(s, a).checked == s.checked && s.accepted <= Do(s, a).accepted
  {
  }

  /** When the goroutine has returned, every id accepted before it found the inbox empty in its
      drain has been passed to `UpdateBatch`. */
  lemma ShutdownWritesAll(maxBatch: int, before: seq<Step>, s: State, after: seq<Step>, t: State)
    requires Run(Init(maxBatch), before, s) && Enabled(s, FindEmpty)
    requires Run(Do(s, FindEmpty), after, t) && t.pc.Returned?
    ensures forall id :: id in s.accepted ==> id in Written(t.batches)
  {
    hide Run, Written;
    InitInv(maxBatch);
    InvAlongRun(Init(maxBatch), before, s);
    InvKept(s, FindEmpty);
    InvAlongRun(Do(s, FindEmpty), after, t);
    PastStays(Do(s, FindEmpty), after, t);
    assert |s.accepted| == t.received;
    assert t.accepted[..t.received] == s.accepted;
    forall id | id in s.accepted ensures id in Written(t.batches) {
      assert id in Members(t.accepted[..t.received]);
    }
  }

  /** It returns only after that. */
  lemma {:induction false} ReturnsAfterDrain(s: State, steps: seq<Step>, t: State) returns (k: nat, u: State)
    requires Run(s, steps, t) && !Past(s) && t.pc.Returned?
    ensures k < |steps| && steps[k] == FindEmpty && Run(s, steps[..k], u) && Enabled(u, FindEmpty)
    ensures Run(Do(u, FindEmpty), steps[k + 1..], t)
    decreases |steps|
  {
    hide Enabled, Do;
    if steps[0] == FindEmpty {
      k, u := 0, s;
    } else {
      NotPastStep(s, steps[0]);
      k, u := ReturnsAfterDrain(Do(s, steps[0]), steps[1..], t);
      k := k + 1;
      assert steps[..k][0] == steps[0] && steps[..k][1..] == steps[1..][..k - 1];
      assert steps[1..][k..] == steps[k + 1..];
    }
  }

  lemma NotPastStep(s: State, a: Step)
    requires !Past(s) && Enabled(s, a) && a != FindEmpty
    ensures !Past(Do(s, a))
  {
  }

  /** After cancellation the drain ends: each of its steps shortens the inbox or leaves the loop. */
  lemma DrainProgresses(s: State) returns (a: Step)
    requires Inv(s) && s.pc.Draining?
    ensures Enabled(s, a)
    ensures var t := Do(s, a);
            if s.inbox != [] then t.pc.Draining? && |t.inbox| < |s.inbox| else t.pc == Flush(s.pending, true)
  {
    a := if s.inbox != [] then Receive else FindEmpty;
  }
}
