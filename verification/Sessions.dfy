/** Sessions and their spans: the ingest transaction and the closure cron of
    `processing/internal/service/internal.go` over the statements of
    `processing/internal/db/sessions.sql.go`. */
module Sessions {
  import opened Options

  type Id = nat

  datatype Status = InProgress | Completed | CompletedWithErrors | Failed | Abandoned

  /** Costs are in units of 1e-8, as the column keeps them. */
  datatype Session = Session(org: Id, status: Status, spanCount: nat, totalCost: int)

  /** `cost` is `None` for a model without a price. */
  datatype Span = Span(session: Id, httpStatus: int, clientDisconnected: bool, cost: Option<int>)

  type Table = map<Id, Session>

  // ---------------------------------------------------------------------
  // The statements
  // ---------------------------------------------------------------------

  function CreateSession(m: Table, id: Id, org: Id): Table {
    m[id := Session(org, InProgress, 0, 0)]
  }

  function CostDelta(sp: Span): int {
    if sp.cost.Some? then sp.cost.value else 0
  }

  function UpdateSessionAfterSpan(m: Table, sp: Span): Table {
    if sp.session in m then
      var s := m[sp.session];
      m[sp.session := s.(spanCount := s.spanCount + 1, totalCost := s.totalCost + CostDelta(sp))]
    else m
  }

  function CloseSessionsWithStatus(m: Table, status: Status, ids: set<Id>): Table {
    map id | id in m :: if id in ids && m[id].status == InProgress then m[id].(status := status) else m[id]
  }

  function UpgradeSessionToErrors(m: Table, id: Id, org: Id): Table {
    if id in m && m[id].org == org && m[id].status == Completed
    then m[id := m[id].(status := CompletedWithErrors)]
    else m
  }

  // ---------------------------------------------------------------------
  // What the columns summarise
  // ---------------------------------------------------------------------

  function SpansOf(spans: seq<Span>, id: Id): seq<Span> {
    if spans == [] then []
    else SpansOf(spans[..|spans| - 1], id) + (if spans[|spans| - 1].session == id then [spans[|spans| - 1]] else [])
  }

  function CostOf(spans: seq<Span>): int {
    if spans == [] then 0 else CostOf(spans[..|spans| - 1]) + CostDelta(spans[|spans| - 1])
  }

  predicate IsError(sp: Span) {
    sp.httpStatus >= 400
  }

  function ErrorCount(spans: seq<Span>): nat {
    if spans == [] then 0 else ErrorCount(spans[..|spans| - 1]) + (if IsError(spans[|spans| - 1]) then 1 else 0)
  }

  function DisconnectedCount(spans: seq<Span>): nat {
    if spans == [] then 0
    else DisconnectedCount(spans[..|spans| - 1]) + (if spans[|spans| - 1].clientDisconnected then 1 else 0)
  }

  /** The heuristic, from three counts. */
  function Label(spanCount: nat, errors: nat, disconnected: nat): Status {
    if disconnected > 0 then Abandoned
    else if errors == spanCount then Failed
    else if errors > 0 then CompletedWithErrors
    else Completed
  }

  /** What the documentation promises of a session with these spans. */
  ghost predicate RightLabel(status: Status, spans: seq<Span>) {
    && (status == Abandoned <==> exists sp :: sp in spans && sp.clientDisconnected)
    && (status == Failed <==> (forall sp :: sp in spans ==> !sp.clientDisconnected && sp.httpStatus >= 400))
    && (status == CompletedWithErrors <==>
          && (forall sp :: sp in spans ==> !sp.clientDisconnected)
          && (exists sp :: sp in spans && sp.httpStatus >= 400)
          && (exists sp :: sp in spans && sp.httpStatus < 400))
    && (status == Completed <==>
          spans != [] && forall sp :: sp in spans ==> !sp.clientDisconnected && sp.httpStatus < 400)
  }

  lemma {:induction false} ErrorCountFacts(spans: seq<Span>)
    ensures ErrorCount(spans) <= |spans|
    ensures ErrorCount(spans) == 0 <==> forall sp :: sp in spans ==> !IsError(sp)
    ensures ErrorCount(spans) == |spans| <==> forall sp :: sp in spans ==> IsError(sp)
  {
    if spans == [] {
    } else {
      var n := |spans| - 1;
      ErrorCountFacts(spans[..n]);
      assert spans == spans[..n] + [spans[n]];
    }
  }

  lemma {:induction false} DisconnectedCountFacts(spans: seq<Span>)
    ensures DisconnectedCount(spans) == 0 <==> forall sp :: sp in spans ==> !sp.clientDisconnected
  {
    if spans == [] {
    } else {
      var n := |spans| - 1;
      DisconnectedCountFacts(spans[..n]);
      assert spans == spans[..n] + [spans[n]];
    }
  }

  /** Counted over the same spans the heuristic is right: a session is failed exactly when it
      has no disconnected span and all its spans are errors. */
  lemma LabelIsRight(spans: seq<Span>)
    ensures RightLabel(Label(|spans|, ErrorCount(spans), DisconnectedCount(spans)), spans)
  {
    ErrorCountFacts(spans);
    DisconnectedCountFacts(spans);
    if spans != [] { assert spans[0] in spans; }
  }

  lemma SpansOfAppend(spans: seq<Span>, sp: Span, id: Id)
    ensures SpansOf(spans + [sp], id) == SpansOf(spans, id) + (if sp.session == id then [sp] else [])
  {
  }

  lemma CostOfAppend(spans: seq<Span>, sp: Span)
    ensures CostOf(spans + [sp]) == CostOf(spans) + CostDelta(sp)
  {
  }

  // ---------------------------------------------------------------------
  // The database and the service
  // ---------------------------------------------------------------------

  /** What `GROUP BY session_id` returns: sessions without a row have no such span. */
  type Counts = map<Id, nat>

  function CountOf(c: Counts, id: Id): nat {
    if id in c then c[id] else 0
  }

  function ErrorCounts(spans: seq<Span>, ids: set<Id>): Counts {
    map id | id in ids && ErrorCount(SpansOf(spans, id)) > 0 :: ErrorCount(SpansOf(spans, id))
  }

  function DisconnectedCounts(spans: seq<Span>, ids: set<Id>): Counts {
    map id | id in ids && DisconnectedCount(SpansOf(spans, id)) > 0 :: DisconnectedCount(SpansOf(spans, id))
  }

  datatype Idle = Idle(id: Id, spanCount: nat)

  /** Statuses a closure may assign. */
  const CLOSED: set<Status> := {Completed, CompletedWithErrors, Failed, Abandoned}

  class Database {
    var sessions: Table
    var spans: seq<Span>

    /** Every session's columns summarise its spans, and it has one. */
    ghost predicate Valid()
      reads this
    {
      Books(sessions, spans)
    }

    constructor ()
      ensures Valid() && sessions == map[] && spans == []
    {
      sessions, spans := map[], [];
    }

    /** The body of the ingest transaction. `found` is the session the request belongs to; a new
        one gets the id `newId`. */
    method IngestSpan(found: Option<Id>, newId: Id, org: Id, httpStatus: int, clientDisconnected: bool,
                      cost: Option<int>)
      returns (id: Id, newSession: bool)
      requires Valid() && newId !in sessions
      requires found.Some? ==> found.value in sessions
      modifies this
      ensures Valid() && newSession == found.None? && id == (if found.Some? then found.value else newId)
      ensures spans == old(spans) + [Span(id, httpStatus, clientDisconnected, cost)]
      ensures sessions == UpdateSessionAfterSpan(
                if newSession then CreateSession(old(sessions), newId, org) else old(sessions),
                Span(id, httpStatus, clientDisconnected, cost))
      ensures id in sessions
      ensures forall k :: k in old(sessions) && k != id ==> k in sessions && sessions[k] == old(sessions)[k]
      ensures var delta := if cost.Some? then cost.value else 0;
              sessions[id] == if newSession then Session(org, InProgress, 1, delta)
                              else old(sessions)[id].(spanCount := old(sessions)[id].spanCount + 1,
                                                      totalCost := old(sessions)[id].totalCost + delta)
    {
      hide Books;
      ghost var before := sessions;
      if found.Some? {
        id, newSession := found.value, false;
      } else {
        id, newSession := newId, true;
        sessions := sessions[id := Session(org, InProgress, 0, 0)];
      }
      var sp := Span(id, httpStatus, clientDisconnected, cost);
      BooksAfterSpan(before, spans, org, sp);
      spans := spans + [sp];
      var delta := if cost.Some? then cost.value else 0;
      var s := sessions[id];
      sessions := sessions[id := s.(spanCount := s.spanCount + 1, totalCost := s.totalCost + delta)];
    }

    /** The batch updates, one per status, in any order. */
    method CloseGroups(groups: map<Status, seq<Id>>, ghost labels: map<Id, Status>)
      requires forall id :: id in labels ==> id in sessions && sessions[id].status == InProgress && labels[id] in groups
      requires forall status, id :: status in groups ==>
                 (id in groups[status] <==> id in labels && labels[id] == status)
      modifies this`sessions
      ensures sessions == ClosedSoFar(old(sessions), labels, {})
    {
      ghost var before := sessions;
      var todo := groups.Keys;
      assert ClosedSoFar(before, labels, todo) == before;
      while todo != {}
        invariant todo <= groups.Keys && sessions == ClosedSoFar(before, labels, todo)
      {
        var status :| status in todo;
        var sessionIds := set i | 0 <= i < |groups[status]| :: groups[status][i];
        InGroup(groups[status], sessionIds);
        CloseGroup(before, labels, todo, status, sessionIds);
        sessions := CloseSessionsWithStatus(sessions, status, sessionIds);
        todo := todo - {status};
      }
    }

    /** The closure cron with nothing in between: every idle session gets the status its spans
        call for, and no other row changes. */
    method RunSessionClosureCron(idle: seq<Idle>)
      requires Valid()
      requires forall i :: 0 <= i < |idle| ==>
                 idle[i].id in sessions && sessions[idle[i].id].status == InProgress
                     && idle[i].spanCount == sessions[idle[i].id].spanCount
      modifies this`sessions
      ensures Valid() && sessions.Keys == old(sessions).Keys
      ensures forall id :: id in sessions ==> sessions[id] == old(sessions)[id].(status := sessions[id].status)
      ensures forall i :: 0 <= i < |idle| ==> RightLabel(sessions[idle[i].id].status, SpansOf(spans, idle[i].id))
      ensures forall id :: id in sessions && (forall i :: 0 <= i < |idle| ==> idle[i].id != id) ==>
                sessions[id] == old(sessions)[id]
    {
      hide SpansOf, ErrorCount, DisconnectedCount, CostOf, RightLabel, Label, Books, ErrorCounts, DisconnectedCounts;
      var ids := set i | 0 <= i < |idle| :: idle[i].id;
      var errorCounts, disconnectedCounts := ErrorCounts(spans, ids), DisconnectedCounts(spans, ids);
      var groups := StatusGroups(idle, errorCounts, disconnectedCounts);
      ghost var labels :=
        map id | id in ids :: LabelOf(Idle(id, sessions[id].spanCount), errorCounts, disconnectedCounts);
      assert forall i :: 0 <= i < |idle| ==> idle[i] == Idle(idle[i].id, sessions[idle[i].id].spanCount);
      LabelsRight(sessions, spans, ids, labels);
      BooksKept(sessions, ClosedSoFar(sessions, labels, {}), spans);
      CloseGroups(groups, labels);
    }
  }

  /** The heuristic applied to counts that were read together. */
  lemma LabelsRight(m: Table, spans: seq<Span>, ids: set<Id>, labels: map<Id, Status>)
    requires Books(m, spans) && ids <= m.Keys
    requires labels == map id | id in ids ::
                         LabelOf(Idle(id, m[id].spanCount), ErrorCounts(spans, ids), DisconnectedCounts(spans, ids))
    ensures forall id :: id in ids ==> RightLabel(labels[id], SpansOf(spans, id))
  {
    hide SpansOf, ErrorCount, DisconnectedCount, CostOf, RightLabel, Label;
    forall id | id in ids ensures RightLabel(labels[id], SpansOf(spans, id)) {
      LabelIsRight(SpansOf(spans, id));
    }
  }

  lemma InGroup(group: seq<Id>, ids: set<Id>)
    requires ids == set i | 0 <= i < |group| :: group[i]
    ensures forall id :: id in ids <==> id in group
  {
  }

  /** The table when all groups but those in `todo` are closed. */
  ghost function ClosedSoFar(before: Table, labels: map<Id, Status>, todo: set<Status>): Table {
    map id | id in before ::
      if id in labels && labels[id] !in todo then before[id].(status := labels[id]) else before[id]
  }

  lemma CloseGroup(before: Table, labels: map<Id, Status>, todo: set<Status>, status: Status, ids: set<Id>)
    requires status in todo && forall id :: id in labels ==> id in before && before[id].status == InProgress
    requires forall id :: id in ids <==> id in labels && labels[id] == status
    ensures CloseSessionsWithStatus(ClosedSoFar(before, labels, todo), status, ids)
            == ClosedSoFar(before, labels, todo - {status})
  {
  }

  function LabelOf(s: Idle, errors: Counts, disconnected: Counts): Status {
    Label(s.spanCount, CountOf(errors, s.id), CountOf(disconnected, s.id))
  }

  /** Groups the idle sessions by the status they are to get: each is in the group of its own
      label and in no other. */
  method StatusGroups(idle: seq<Idle>, errors: Counts, disconnected: Counts) returns (groups: map<Status, seq<Id>>)
    ensures groups.Keys <= CLOSED
    ensures forall i :: 0 <= i < |idle| ==>
              LabelOf(idle[i], errors, disconnected) in groups
                  && idle[i].id in groups[LabelOf(idle[i], errors, disconnected)]
    ensures forall status, id :: status in groups && id in groups[status] ==>
              exists i :: 0 <= i < |idle| && idle[i].id == id && LabelOf(idle[i], errors, disconnected) == status
  {
    groups := map[];
    for k := 0 to |idle|
      invariant groups.Keys <= CLOSED
      invariant forall i :: 0 <= i < k ==>
                  LabelOf(idle[i], errors, disconnected) in groups
                      && idle[i].id in groups[LabelOf(idle[i], errors, disconnected)]
      invariant forall status, id :: status in groups && id in groups[status] ==>
                  exists i :: 0 <= i < k && idle[i].id == id && LabelOf(idle[i], errors, disconnected) == status
    {
      var errorCount, disconnectedCount := CountOf(errors, idle[k].id), CountOf(disconnected, idle[k].id);
      var status;
      if disconnectedCount > 0 { status := Abandoned; }
      else if errorCount == idle[k].spanCount { status := Failed; }
      else if errorCount > 0 { status := CompletedWithErrors; }
      else { status := Completed; }
      assert status == LabelOf(idle[k], errors, disconnected);
      groups := groups[status := (if status in groups then groups[status] else []) + [idle[k].id]];
    }
  }

  // ---------------------------------------------------------------------
  // The books
  // ---------------------------------------------------------------------

  ghost predicate Books(m: Table, spans: seq<Span>) {
    && (forall id :: id in m ==>
          m[id].spanCount == |SpansOf(spans, id)| > 0 && m[id].totalCost == CostOf(SpansOf(spans, id)))
    && (forall id :: id !in m ==> SpansOf(spans, id) == [])
  }

  lemma BooksAfterSpan(m: Table, spans: seq<Span>, org: Id, sp: Span)
    requires Books(m, spans)
    ensures Books(UpdateSessionAfterSpan(if sp.session in m then m else CreateSession(m, sp.session, org), sp),
            spans + [sp])
  {
    hide SpansOf, CostOf;
    var n := UpdateSessionAfterSpan(if sp.session in m then m else CreateSession(m, sp.session, org), sp);
    EmptyCost();
    forall id
      ensures id in n ==>
                n[id].spanCount == |SpansOf(spans + [sp], id)| > 0
                    && n[id].totalCost == CostOf(SpansOf(spans + [sp], id))
      ensures id !in n ==> SpansOf(spans + [sp], id) == []
    {
      SpansOfAppend(spans, sp, id);
      if id == sp.session {
        CostOfAppend(SpansOf(spans, id), sp);
      } else {
        assert SpansOf(spans, id) + [] == SpansOf(spans, id);
      }
    }
  }

  lemma EmptyCost()
    ensures CostOf([]) == 0
  {
  }

  lemma BooksKept(m: Table, n: Table, spans: seq<Span>)
    requires Books(m, spans) && n.Keys == m.Keys
    requires forall id :: id in m ==> n[id].spanCount == m[id].spanCount && n[id].totalCost == m[id].totalCost
    ensures Books(n, spans)
  {
  }

  // ---------------------------------------------------------------------
  // Interleaved runs
  // ---------------------------------------------------------------------

  /** The closure cron reads three times before it writes, and spans can arrive in between.
      `read` is the span count each idle session had at the first read. */
  datatype Cron =
    | Sleeping
    | ReadIdle(read: map<Id, nat>)
    | ReadErrors(read: map<Id, nat>, errors: Counts)
    | Closing(read: map<Id, nat>, labels: map<Id, Status>)

  /** An ingest transaction that has found its session but not committed is in `open`. */
  datatype State = State(sessions: Table, spans: seq<Span>, open: map<Id, Id>, cron: Cron)

  datatype Step =
    | Find(tx: Id, id: Id)
    | Commit(tx: Id, httpStatus: int, clientDisconnected: bool, cost: Option<int>)
    | Rollback(tx: Id)
    | CommitNew(id: Id, org: Id, httpStatus: int, clientDisconnected: bool, cost: Option<int>)
    | CronReadsIdle(ids: set<Id>)
    | CronReadsErrors
    | CronReadsDisconnected
    | CronCloses(status: Status)
    | CronEnds
    | Upgrade(id: Id, org: Id)

  function Init(): State {
    State(map[], [], map[], Sleeping)
  }

  predicate Enabled(s: State, a: Step) {
    match a
    case Find(tx, id) => tx !in s.open && id in s.sessions && s.sessions[id].status == InProgress
    case Commit(tx, _, _, _) => tx in s.open && s.open[tx] in s.sessions
    case Rollback(tx) => tx in s.open
    case CommitNew(id, _, _, _, _) => id !in s.sessions
    case CronReadsIdle(ids) =>
      s.cron.Sleeping? && forall id :: id in ids ==> id in s.sessions && s.sessions[id].status == InProgress
    case CronReadsErrors => s.cron.ReadIdle?
    case CronReadsDisconnected => s.cron.ReadErrors?
    case CronCloses(status) => s.cron.Closing? && status in CLOSED
    case CronEnds => s.cron.Closing?
    case Upgrade(_, _) => true
  }

  function Do(s: State, a: Step): State
    requires Enabled(s, a)
  {
    match a
    case Find(tx, id) => s.(open := s.open[tx := id])
    case Commit(tx, http, gone, cost) =>
      var sp := Span(s.open[tx], http, gone, cost);
      s.(sessions := UpdateSessionAfterSpan(s.sessions, sp), spans := s.spans + [sp], open := s.open - {tx})
    case Rollback(tx) => s.(open := s.open - {tx})
    case CommitNew(id, org, http, gone, cost) =>
      var sp := Span(id, http, gone, cost);
      s.(sessions := UpdateSessionAfterSpan(CreateSession(s.sessions, id, org), sp), spans := s.spans + [sp])
    case CronReadsIdle(ids) => s.(cron := ReadIdle(map id | id in ids :: s.sessions[id].spanCount))
    case CronReadsErrors => s.(cron := ReadErrors(s.cron.read, ErrorCounts(s.spans, s.cron.read.Keys)))
    case CronReadsDisconnected =>
      var disconnected := DisconnectedCounts(s.spans, s.cron.read.Keys);
      var read, errors := s.cron.read, s.cron.errors;
      s.(cron := Closing(read, map id | id in read :: LabelOf(Idle(id, read[id]), errors, disconnected)))
    case CronCloses(status) =>
      var ids := set id | id in s.cron.labels && s.cron.labels[id] == status;
      s.(sessions := CloseSessionsWithStatus(s.sessions, status, ids))
    case CronEnds => s.(cron := Sleeping)
    case Upgrade(id, org) => s.(sessions := UpgradeSessionToErrors(s.sessions, id, org))
  }

  predicate Run(s: State, steps: seq<Step>, t: State)
    decreases |steps|
  {
    if steps == [] then t == s
    else Enabled(s, steps[0]) && Run(Do(s, steps[0]), steps[1..], t)
  }

  /** What the cron has read still holds of every session that has got no span since. */
  ghost predicate CronOk(cron: Cron, spans: seq<Span>) {
    (cron.ReadErrors? || cron.Closing?) ==>
      forall id :: id in cron.read ==> cron.read[id] <= |SpansOf(spans, id)| && (
        cron.read[id] == |SpansOf(spans, id)| ==>
          if cron.ReadErrors? then CountOf(cron.errors, id) == ErrorCount(SpansOf(spans, id))
          else id in cron.labels && RightLabel(cron.labels[id], SpansOf(spans, id)))
  }

  ghost predicate ReadOk(cron: Cron, m: Table) {
    && (!cron.Sleeping? ==> forall id :: id in cron.read ==> id in m && cron.read[id] <= m[id].spanCount)
    && (cron.Closing? ==> cron.labels.Keys == cron.read.Keys)
  }

  ghost predicate Inv(s: State) {
    && Books(s.sessions, s.spans)
    && (forall tx :: tx in s.open ==> s.open[tx] in s.sessions)
    && ReadOk(s.cron, s.sessions)
    && CronOk(s.cron, s.spans)
  }

  lemma CronAfterSpan(cron: Cron, m: Table, spans: seq<Span>, sp: Span)
    requires Books(m, spans) && ReadOk(cron, m) && CronOk(cron, spans)
    ensures CronOk(cron, spans + [sp])
  {
    hide SpansOf, CostOf, ErrorCount, RightLabel;
    if cron.ReadErrors? || cron.Closing? {
      forall id | id in cron.read
        ensures SpansOf(spans + [sp], id) == SpansOf(spans, id) || cron.read[id] < |SpansOf(spans + [sp], id)|
      {
        SpansOfAppend(spans, sp, id);
        assert SpansOf(spans, id) + [] == SpansOf(spans, id);
      }
    }
  }

  lemma CommitKept(s: State, org: Id, sp: Span, t: State)
    requires Inv(s) && t.cron == s.cron && t.spans == s.spans + [sp] && t.open.Items <= s.open.Items
    requires t.sessions == UpdateSessionAfterSpan(if sp.session in s.sessions then s.sessions
             else CreateSession(s.sessions, sp.session, org), sp)
    ensures Inv(t)
  {
    hide Books, CronOk;
    BooksAfterSpan(s.sessions, s.spans, org, sp);
    CronAfterSpan(s.cron, s.sessions, s.spans, sp);
    forall tx | tx in t.open ensures t.open[tx] in t.sessions {
      assert (tx, t.open[tx]) in t.open.Items;
      assert (tx, t.open[tx]) in s.open.Items;
    }
  }

  lemma ReadErrorsKept(s: State)
    requires Inv(s) && s.cron.ReadIdle?
    ensures Inv(Do(s, CronReadsErrors))
  {
  }

  lemma ReadDisconnectedKept(s: State)
    requires Inv(s) && s.cron.ReadErrors?
    ensures Inv(Do(s, CronReadsDisconnected))
  {
    hide SpansOf, CostOf, ErrorCount, DisconnectedCount, RightLabel, Label;
    var t := Do(s, CronReadsDisconnected);
    forall id | id in s.cron.read && s.cron.read[id] == |SpansOf(s.spans, id)|
      ensures RightLabel(t.cron.labels[id], SpansOf(s.spans, id))
    {
      LabelIsRight(SpansOf(s.spans, id));
    }
  }

  lemma TableKept(s: State, t: State)
    requires Inv(s) && t == s.(sessions := t.sessions) && t.sessions.Keys == s.sessions.Keys
    requires forall id :: id in s.sessions ==> t.sessions[id] == s.sessions[id].(status := t.sessions[id].status)
    ensures Inv(t)
  {
  }

  lemma {:induction false} InvKept(s: State, a: Step)
    requires Inv(s) && Enabled(s, a)
    ensures Inv(Do(s, a))
  {
    hide Inv;
    match a
    case Commit(tx, http, gone, cost) => CommitKept(s, 0, Span(s.open[tx], http, gone, cost), Do(s, a));
    case CommitNew(id, org, http, gone, cost) => CommitKept(s, org, Span(id, http, gone, cost), Do(s, a));
    case CronReadsErrors => ReadErrorsKept(s);
    case CronReadsDisconnected => ReadDisconnectedKept(s);
    case CronCloses(_) => TableKept(s, Do(s, a));
    case Upgrade(_, _) => TableKept(s, Do(s, a));
    case _ => QuietKept(s, a);
  }

  lemma QuietKept(s: State, a: Step)
    requires Inv(s) && Enabled(s, a) && (a.Find? || a.Rollback? || a.CronReadsIdle? || a.CronEnds?)
    ensures Inv(Do(s, a))
  {
  }

  lemma {:induction false} InvAlongRun(s: State, steps: seq<Step>, t: State)
    requires Inv(s) && Run(s, steps, t)
    ensures Inv(t)
    decreases |steps|
  {
    hide Inv, Enabled, Do;
    if steps == [] {
    } else {
      InvKept(s, steps[0]);
      InvAlongRun(Do(s, steps[0]), steps[1..], t);
    }
  }

  lemma InitInv()
    ensures Inv(Init())
  {
  }

  /** In every interleaving every session's counters are the number and cost of its spans. */
  lemma SessionsConserved(steps: seq<Step>, t: State, id: Id)
    requires Run(Init(), steps, t) && id in t.sessions
    ensures t.sessions[id].spanCount == |SpansOf(t.spans, id)| > 0
    ensures t.sessions[id].totalCost == CostOf(SpansOf(t.spans, id))
  {
    hide Run, SpansOf, CostOf;
    InitInv();
    InvAlongRun(Init(), steps, t);
  }

  /** What a step does to a row: a span is booked on its session, a closure and an upgrade change
      the status of the rows they are for, and nothing else changes a row. */
  lemma RowStep(s: State, a: Step, id: Id)
    requires Enabled(s, a) && id in s.sessions
    ensures id in Do(s, a).sessions
    ensures var was := s.sessions[id];
            Do(s, a).sessions[id]
            == match a
               case Commit(tx, _, _, cost) =>
                 if s.open[tx] == id then
                   was.(spanCount := was.spanCount + 1,
                        totalCost := was.totalCost + (if cost.Some? then cost.value else 0))
                 else was
               case CronCloses(status) =>
                 if id in s.cron.labels && s.cron.labels[id] == status && was.status == InProgress
                 then was.(status := status) else was
               case Upgrade(upgraded, org) =>
                 if upgraded == id && org == was.org && was.status == Completed
                 then was.(status := CompletedWithErrors) else was
               case _ => was
  {
  }

  /** A new session belongs to the organization of its request, is in progress and has one span. */
  lemma NewRow(s: State, id: Id, org: Id, http: int, gone: bool, cost: Option<int>)
    requires Enabled(s, CommitNew(id, org, http, gone, cost))
    ensures var t := Do(s, CommitNew(id, org, http, gone, cost));
            && t.sessions
               == s.sessions[id := Session(org, InProgress, 1, if cost.Some? then cost.value else 0)]
            && t.spans == s.spans + [Span(id, http, gone, cost)]
  {
  }

  /** How a status may change: out of progress, or from completed to completed with errors. */
  predicate MayBecome(a: Status, b: Status) {
    a == b || a == InProgress || (a == Completed && b == CompletedWithErrors)
  }

  lemma StatusStep(s: State, a: Step, id: Id)
    requires Enabled(s, a) && id in s.sessions
    ensures var t := Do(s, a); id in t.sessions && MayBecome(s.sessions[id].status, t.sessions[id].status)
  {
  }

  /** Over any run a session stays, its status never goes back into progress, and the only change
      between terminal statuses is from completed to completed with errors. */
  lemma {:induction false} StatusNeverReenters(s: State, steps: seq<Step>, t: State, id: Id)
    requires Run(s, steps, t) && id in s.sessions
    ensures id in t.sessions && MayBecome(s.sessions[id].status, t.sessions[id].status)
    decreases |steps|
  {
    hide Enabled, Do;
    if steps == [] {
    } else {
      StatusStep(s, steps[0], id);
      StatusNeverReenters(Do(s, steps[0]), steps[1..], t, id);
    }
  }

  /** Even with other steps in between, a session that the cron closes gets the status its spans
      call for if no span was committed to it since the cron first read it. */
  lemma ClosedAsItsSpansSay(steps: seq<Step>, s: State, status: Status, id: Id)
    requires Run(Init(), steps, s) && Enabled(s, CronCloses(status)) && id in s.sessions
    requires s.sessions[id] != Do(s, CronCloses(status)).sessions[id]
    ensures id in s.cron.read && Do(s, CronCloses(status)).sessions[id].status == status
    ensures s.cron.read[id] == s.sessions[id].spanCount ==> RightLabel(status, SpansOf(s.spans, id))
  {
    hide Run, SpansOf, CostOf, RightLabel;
    InitInv();
    InvAlongRun(Init(), steps, s);
  }

  // One success, then an error committed between the cron's first and second read.

  const OK_SPAN := Span(1, 200, false, None)
  const BAD_SPAN := Span(1, 500, false, None)

  function RowOne(status: Status, spanCount: nat): Table {
    map[1 := Session(1, status, spanCount, 0)]
  }

  lemma SpansBeforeAndAfter()
    ensures SpansOf([OK_SPAN], 1) == [OK_SPAN] && SpansOf([OK_SPAN, BAD_SPAN], 1) == [OK_SPAN, BAD_SPAN]
    ensures ErrorCount([OK_SPAN, BAD_SPAN]) == 1 && DisconnectedCount([OK_SPAN, BAD_SPAN]) == 0
  {
    var all := [OK_SPAN, BAD_SPAN];
    SpansOfAppend([], OK_SPAN, 1);
    SpansOfAppend([OK_SPAN], BAD_SPAN, 1);
    assert [] + [OK_SPAN] == [OK_SPAN] && [OK_SPAN] + [BAD_SPAN] == all && all[..1] == [OK_SPAN];
    assert ErrorCount([OK_SPAN]) == 0 && DisconnectedCount([OK_SPAN]) == 0;
  }

  lemma FirstRead()
    ensures var s := State(RowOne(InProgress, 1), [OK_SPAN], map[7 := 1], Sleeping);
            Enabled(s, CronReadsIdle({1})) && Do(s, CronReadsIdle({1})) == s.(cron := ReadIdle(map[1 := 1]))
  {
    var s := State(RowOne(InProgress, 1), [OK_SPAN], map[7 := 1], Sleeping);
    assert Do(s, CronReadsIdle({1})).cron.read == map[1 := 1];
  }

  lemma LateCommit()
    ensures var s := State(RowOne(InProgress, 1), [OK_SPAN], map[7 := 1], ReadIdle(map[1 := 1]));
            var a := Commit(7, 500, false, None);
            Enabled(s, a) && Do(s, a) == State(RowOne(InProgress, 2), [OK_SPAN, BAD_SPAN], map[], ReadIdle(map[1 := 1]))
  {
  }

  lemma LaterReads()
    ensures var s := State(RowOne(InProgress, 2), [OK_SPAN, BAD_SPAN], map[], ReadIdle(map[1 := 1]));
            var read := s.(cron := ReadErrors(map[1 := 1], map[1 := 1]));
            Do(s, CronReadsErrors) == read && Do(read, CronReadsDisconnected)
                == s.(cron := Closing(map[1 := 1], map[1 := Failed]))
  {
    SpansBeforeAndAfter();
    hide SpansOf, ErrorCount, DisconnectedCount;
    var s := State(RowOne(InProgress, 2), [OK_SPAN, BAD_SPAN], map[], ReadIdle(map[1 := 1]));
    var read := s.(cron := ReadErrors(map[1 := 1], map[1 := 1]));
    assert Do(s, CronReadsErrors).cron.errors == map[1 := 1];
    assert Do(read, CronReadsDisconnected).cron.labels == map[1 := Failed];
  }

  lemma LastStep()
    ensures var s := State(RowOne(InProgress, 2), [OK_SPAN, BAD_SPAN], map[], Closing(map[1 := 1], map[1 := Failed]));
            Enabled(s, CronCloses(Failed)) && Do(s, CronCloses(Failed)) == s.(sessions := RowOne(Failed, 2))
  {
  }

  lemma FirstSteps()
    ensures Do(Init(), CommitNew(1, 1, 200, false, None)) == State(RowOne(InProgress, 1), [OK_SPAN], map[], Sleeping)
  {
  }

  /** With a span in between the label can be wrong: this session closes as failed although one
      of its two spans succeeded. */
  lemma LateSpanMislabels() returns (steps: seq<Step>, t: State)
    ensures Run(Init(), steps, t) && t.sessions == RowOne(Failed, 2) && t.spans == [OK_SPAN, BAD_SPAN]
    ensures !RightLabel(Failed, SpansOf(t.spans, 1))
  {
    SpansBeforeAndAfter();
    FirstSteps();
    FirstRead();
    LateCommit();
    LaterReads();
    LastStep();
    assert OK_SPAN in [OK_SPAN, BAD_SPAN] && !IsError(OK_SPAN);
    assert !RightLabel(Failed, [OK_SPAN, BAD_SPAN]);
    hide SpansOf, RightLabel, ErrorCounts, DisconnectedCounts, CloseSessionsWithStatus, UpdateSessionAfterSpan,
         CreateSession;
    var s1 := State(RowOne(InProgress, 1), [OK_SPAN], map[], Sleeping);
    var s2 := s1.(open := map[7 := 1]);
    var s3 := s2.(cron := ReadIdle(map[1 := 1]));
    var s4 := State(RowOne(InProgress, 2), [OK_SPAN, BAD_SPAN], map[], ReadIdle(map[1 := 1]));
    var s5 := s4.(cron := ReadErrors(map[1 := 1], map[1 := 1]));
    var s6 := s4.(cron := Closing(map[1 := 1], map[1 := Failed]));
    t := s6.(sessions := RowOne(Failed, 2));
    assert Do(s1, Find(7, 1)) == s2 by { assert map[][7 := 1] == map[7 := 1]; }
    hide Do;
    steps := RunStep(s6, CronCloses(Failed), [], t);
    steps := RunStep(s5, CronReadsDisconnected, steps, t);
    steps := RunStep(s4, CronReadsErrors, steps, t);
    steps := RunStep(s3, Commit(7, 500, false, None), steps, t);
    steps := RunStep(s2, CronReadsIdle({1}), steps, t);
    steps := RunStep(s1, Find(7, 1), steps, t);
    steps := RunStep(Init(), CommitNew(1, 1, 200, false, None), steps, t);
  }

  lemma RunStep(s: State, a: Step, rest: seq<Step>, t: State) returns (steps: seq<Step>)
    requires Enabled(s, a) && Run(Do(s, a), rest, t)
    ensures Run(s, steps, t)
  {
    steps := [a] + rest;
    assert steps[1..] == rest;
  }
}
