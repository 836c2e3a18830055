/** The monthly span quota of free organizations: `TryIncrementOrgSpanCounter` in
    `processing/internal/db/organizations.sql.go` and its use in
    `processing/internal/service/internal.go`. */
module Quota {
  import opened Options

  /** Months are numbered; the first day of a month stands for it in the table. */
  type Month = int

  const FREE_SPAN_LIMIT: nat := 3000

  /** The two columns of an organization's row. */
  datatype Counter = Counter(count: nat, periodStart: Month)

  /** The UPDATE: the new row, or nothing when its WHERE clause filters the row out. */
  function Incremented(c: Counter, month: Month, limit: nat): Option<Counter> {
    if c.periodStart < month then Some(Counter(1, month))
    else if c.count < limit then Some(Counter(c.count + 1, c.periodStart))
    else None
  }

  class Organization {
    var spansThisMonthCount: nat
    var spansCountPeriodStart: Month

    ghost function Row(): Counter
      reads this
    {
      Counter(spansThisMonthCount, spansCountPeriodStart)
    }

    constructor (periodStart: Month)
      ensures Row() == Counter(0, periodStart)
    {
      spansThisMonthCount, spansCountPeriodStart := 0, periodStart;
    }

    method TryIncrement(month: Month, limit: nat) returns (count: Option<nat>)
      modifies this
      ensures var r := Incremented(old(Row()), month, limit);
              && Row() == (if r.Some? then r.value else old(Row()))
              && count == (if r.Some? then Some(r.value.count) else None)
      ensures count.Some? <==> old(spansCountPeriodStart) < month || old(spansThisMonthCount) < limit
      ensures count.Some? && old(spansCountPeriodStart) < month ==>
                spansThisMonthCount == 1 && spansCountPeriodStart == month
      ensures count.Some? && old(spansCountPeriodStart) >= month ==>
                && spansThisMonthCount == old(spansThisMonthCount) + 1
                && spansCountPeriodStart == old(spansCountPeriodStart)
    {
      if !(spansCountPeriodStart < month || spansThisMonthCount < limit) {
        return None;
      }
      if spansCountPeriodStart < month {
        spansThisMonthCount, spansCountPeriodStart := 1, month;
      } else {
        spansThisMonthCount := spansThisMonthCount + 1;
      }
      count := Some(spansThisMonthCount);
    }

    /** The gate and the rest of the ingest transaction, which commits or rolls everything back. */
    method Ingest(month: Month, restSucceeds: bool) returns (accepted: bool)
      modifies this
      ensures accepted == (Incremented(old(Row()), month, FREE_SPAN_LIMIT).Some? && restSucceeds)
      ensures Row() == if accepted then Incremented(old(Row()), month, FREE_SPAN_LIMIT).value else old(Row())
    {
      var before, start := spansThisMonthCount, spansCountPeriodStart;
      var count := TryIncrement(month, FREE_SPAN_LIMIT);
      if count.None? { return false; }
      if !restSucceeds {
        spansThisMonthCount, spansCountPeriodStart := before, start;
      }
      return restSucceeds;
    }
  }

  // ---------------------------------------------------------------------
  // Every run
  // ---------------------------------------------------------------------

  /** One ingest request: the month of its transaction, and whether the rest of it succeeds. */
  datatype Attempt = Attempt(month: Month, restSucceeds: bool)

  /** The row, and the months of the spans that were committed. */
  datatype State = State(row: Counter, log: seq<Month>)

  function Do(s: State, a: Attempt): State {
    var r := Incremented(s.row, a.month, FREE_SPAN_LIMIT);
    if r.Some? && a.restSucceeds then State(r.value, s.log + [a.month]) else s
  }

  function Run(start: Month, attempts: seq<Attempt>): State {
    if attempts == [] then State(Counter(0, start), [])
    else Do(Run(start, attempts[..|attempts| - 1]), attempts[|attempts| - 1])
  }

  /** Months do not go back, and start no earlier than the row's first period. */
  predicate Ordered(start: Month, attempts: seq<Attempt>, now: Month) {
    if attempts == [] then start <= now
    else
      var month := attempts[|attempts| - 1].month;
      month <= now && Ordered(start, attempts[..|attempts| - 1], month)
  }

  /** How many spans were committed in a month, and in that month or later. */
  function In(log: seq<Month>, m: Month): nat {
    if log == [] then 0 else In(log[..|log| - 1], m) + (if log[|log| - 1] == m then 1 else 0)
  }

  function Since(log: seq<Month>, m: Month): nat {
    if log == [] then 0 else Since(log[..|log| - 1], m) + (if log[|log| - 1] >= m then 1 else 0)
  }

  ghost predicate Inv(s: State, now: Month) {
    && s.row.periodStart <= now
    && s.row.count <= FREE_SPAN_LIMIT
    && s.row.count == Since(s.log, s.row.periodStart) == In(s.log, s.row.periodStart)
    && (forall m :: m > s.row.periodStart ==> In(s.log, m) == 0 && Since(s.log, m) == 0)
    && (forall m :: In(s.log, m) <= FREE_SPAN_LIMIT)
  }

  lemma Appended(log: seq<Month>, x: Month)
    ensures forall m :: In(log + [x], m) == In(log, m) + (if x == m then 1 else 0)
    ensures forall m :: Since(log + [x], m) == Since(log, m) + (if x >= m then 1 else 0)
  {
  }

  lemma InvKept(s: State, a: Attempt)
    requires Inv(s, a.month)
    ensures Inv(Do(s, a), a.month)
  {
    hide In, Since;
    Appended(s.log, a.month);
  }

  lemma {:induction false} InvAlongRun(start: Month, attempts: seq<Attempt>, now: Month)
    requires Ordered(start, attempts, now)
    ensures Inv(Run(start, attempts), now)
    decreases |attempts|
  {
    hide Do;
    if attempts == [] {
    } else {
      var a := attempts[|attempts| - 1];
      InvAlongRun(start, attempts[..|attempts| - 1], a.month);
      InvKept(Run(start, attempts[..|attempts| - 1]), a);
    }
  }

  /** The counter is the number of spans committed since its period started. */
  lemma CounterCountsCommits(start: Month, attempts: seq<Attempt>, now: Month)
    requires Ordered(start, attempts, now)
    ensures var s := Run(start, attempts); s.row.count == Since(s.log, s.row.periodStart)
  {
    hide Run, In, Since, Ordered;
    InvAlongRun(start, attempts, now);
  }

  /** No month ever commits more than 3000 spans. */
  lemma MonthlyLimit(start: Month, attempts: seq<Attempt>, now: Month, m: Month)
    requires Ordered(start, attempts, now)
    ensures In(Run(start, attempts).log, m) <= 3000
  {
    hide Run, In, Since, Ordered;
    InvAlongRun(start, attempts, now);
  }

  /** The gate refuses a request exactly when its month is full. */
  lemma RefusedOnlyWhenFull(start: Month, attempts: seq<Attempt>, month: Month)
    requires Ordered(start, attempts, month)
    ensures var s := Run(start, attempts);
            Incremented(s.row, month, FREE_SPAN_LIMIT).None? <==> In(s.log, month) == 3000
  {
    hide Run, In, Since, Ordered;
    InvAlongRun(start, attempts, month);
  }

  /** What a gate commits that counts the commits of each month anew. */
  function CountedAnew(attempts: seq<Attempt>): seq<Month> {
    if attempts == [] then []
    else
      var log, a := CountedAnew(attempts[..|attempts| - 1]), attempts[|attempts| - 1];
      if a.restSucceeds && In(log, a.month) < 3000 then log + [a.month] else log
  }

  /** One counter per organization, reset by the first request of a month, commits exactly the same
      spans. */
  lemma {:induction false} CommitsAsCountedAnew(start: Month, attempts: seq<Attempt>, now: Month)
    requires Ordered(start, attempts, now)
    ensures Run(start, attempts).log == CountedAnew(attempts)
    decreases |attempts|
  {
    hide In, Incremented;
    if attempts == [] {
    } else {
      var n := |attempts| - 1;
      var month := attempts[n].month;
      CommitsAsCountedAnew(start, attempts[..n], month);
      RefusedOnlyWhenFull(start, attempts[..n], month);
      InvAlongRun(start, attempts[..n], month);
      assert In(Run(start, attempts[..n]).log, month) <= 3000;
    }
  }
}
