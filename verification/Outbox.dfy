/** The transactional outbox: rows are queued, dispatched in batches and retried. Rows are never
    deleted, so the id of a row is its position. Times are seconds. */
module Outbox {
  import opened Basics

  datatype Destination = Mongo | Realtime

  datatype Status = Pending | Processing | Sent | Failed

  datatype Row = Row(destination: Destination, required: bool, status: Status, attempts: nat, availableAt: int,
                     processedAt: Option<int>, lastError: Option<string>)

  /** How the dispatch of one row ends, with the clock reading taken afterwards. */
  datatype Outcome = Returned(at: int) | Raised(at: int, error: string)

  type Dispatcher = nat -> Outcome

  /** Retry delay and attempt cap, as clamped at start-up. */
  datatype Settings = Settings(retrySeconds: int, maxAttempts: int)

  ghost predicate Clamped(c: Settings) {
    c.retrySeconds >= 2 && c.maxAttempts >= 1
  }

  function NewRow(destination: Destination, required: bool, now: int): Row {
    Row(destination, required, Pending, 0, now, None, None)
  }

  /** Rows labelled failed are selected again like pending ones. */
  predicate Due(r: Row, now: int) {
    (r.status == Pending || r.status == Failed) && r.availableAt <= now
  }

  function DueCount(rows: seq<Row>, now: int): nat {
    if rows == [] then 0 else DueCount(rows[..|rows| - 1], now) + if Due(rows[|rows| - 1], now) then 1 else 0
  }

  /** A batch takes the due rows with the smallest ids. */
  predicate Selected(rows: seq<Row>, i: nat, now: int, limit: nat)
    requires i < |rows|
  {
    Due(rows[i], now) && DueCount(rows[..i], now) < limit
  }

  function Dispatched(c: Settings, r: Row, o: Outcome): Row {
    var attempts := r.attempts + 1;
    match o
    case Returned(at) =>
      r.(status := Sent, attempts := attempts, availableAt := at, processedAt := Some(at), lastError := None)
    case Raised(at, error) =>
      r.(status := if attempts >= c.maxAttempts then Failed else Pending, attempts := attempts,
         availableAt := at + c.retrySeconds, processedAt := None, lastError := Some(error))
  }

  ghost function Batch(c: Settings, rows: seq<Row>, now: int, limit: nat, dispatch: Dispatcher): seq<Row> {
    seq(|rows|, i requires 0 <= i < |rows| =>
      if Selected(rows, i, now, limit) then Dispatched(c, rows[i], dispatch(i)) else rows[i])
  }

  // ----- runs, with the outcomes of every row kept as history -----

  /** The rows, and for each of them whether its dispatches returned normally, in order. */
  datatype Box = Box(rows: seq<Row>, outcomes: seq<seq<bool>>)

  datatype Step =
    | Enqueue(destination: Destination, required: bool, now: int)
    | DispatchBatch(now: int, limit: nat, dispatch: Dispatcher)

  ghost function Apply(c: Settings, b: Box, s: Step): Box
    requires |b.rows| == |b.outcomes|
  {
    match s
    case Enqueue(destination, required, now) => Box(b.rows + [NewRow(destination, required, now)], b.outcomes + [[]])
    case DispatchBatch(now, limit, dispatch) =>
      Box(Batch(c, b.rows, now, limit, dispatch),
          seq(|b.rows|, i requires 0 <= i < |b.rows| =>
            if Selected(b.rows, i, now, limit) then b.outcomes[i] + [dispatch(i).Returned?] else b.outcomes[i]))
  }

  ghost function Run(c: Settings, steps: seq<Step>): (b: Box)
    ensures |b.rows| == |b.outcomes|
  {
    if steps == [] then Box([], []) else Apply(c, Run(c, steps[..|steps| - 1]), steps[|steps| - 1])
  }

  predicate LastReturned(outcomes: seq<bool>) {
    outcomes != [] && outcomes[|outcomes| - 1]
  }

  /** The label of a row says exactly what happened to it, and nothing is dispatched after a success. */
  ghost predicate Truthful(c: Settings, r: Row, outcomes: seq<bool>) {
    && r.attempts == |outcomes|
    && (forall k :: 0 <= k < |outcomes| - 1 ==> !outcomes[k])
    && (r.status == Sent <==> LastReturned(outcomes))
    && (r.status == Pending <==> !LastReturned(outcomes) && |outcomes| < c.maxAttempts)
    && (r.status == Failed <==> !LastReturned(outcomes) && |outcomes| >= c.maxAttempts)
  }

  ghost predicate AllTruthful(c: Settings, b: Box)
    requires |b.rows| == |b.outcomes|
  {
    forall i :: 0 <= i < |b.rows| ==> Truthful(c, b.rows[i], b.outcomes[i])
  }

  lemma DispatchedTruthful(c: Settings, r: Row, outcomes: seq<bool>, o: Outcome)
    requires Clamped(c) && Truthful(c, r, outcomes) && (r.status == Pending || r.status == Failed)
    ensures Truthful(c, Dispatched(c, r, o), outcomes + [o.Returned?])
  {
    var after := outcomes + [o.Returned?];
    forall k | 0 <= k < |after| - 1
      ensures !after[k]
    {
      assert after[k] == outcomes[k];
    }
  }

  lemma ApplyTruthful(c: Settings, b: Box, s: Step)
    requires Clamped(c) && |b.rows| == |b.outcomes| && AllTruthful(c, b)
    ensures AllTruthful(c, Apply(c, b, s))
  {
    hide Truthful, Dispatched, Selected;
    match s
    case Enqueue(destination, required, now) => NewRowTruthful(c, destination, required, now);
    case DispatchBatch(now, limit, dispatch) =>
      forall i | 0 <= i < |b.rows|
        ensures Truthful(c, Apply(c, b, s).rows[i], Apply(c, b, s).outcomes[i])
      {
        if Selected(b.rows, i, now, limit) {
          SelectedIsDue(b.rows, i, now, limit);
          DispatchedTruthful(c, b.rows[i], b.outcomes[i], dispatch(i));
        }
      }
  }

  lemma SelectedIsDue(rows: seq<Row>, i: nat, now: int, limit: nat)
    requires i < |rows| && Selected(rows, i, now, limit)
    ensures rows[i].status == Pending || rows[i].status == Failed
  {
  }

  lemma NewRowTruthful(c: Settings, destination: Destination, required: bool, now: int)
    requires Clamped(c)
    ensures Truthful(c, NewRow(destination, required, now), [])
  {
  }

  /** Over any mix of enqueues and batches: a row is sent exactly when its last dispatch returned
      normally (and is then never dispatched again), pending when fewer dispatches than the cap all
      raised, failed when at least as many all raised, and never left processing. */
  lemma {:induction false} RunTruthful(c: Settings, steps: seq<Step>)
    requires Clamped(c)
    ensures AllTruthful(c, Run(c, steps))
  {
    hide Truthful, Apply;
    if steps != [] {
      RunTruthful(c, steps[..|steps| - 1]);
      ApplyTruthful(c, Run(c, steps[..|steps| - 1]), steps[|steps| - 1]);
    }
  }

  /** Rows stay where they are, a sent row never changes again, and outcomes are only added. */
  lemma ApplyKeepsSent(c: Settings, b: Box, s: Step, i: nat)
    requires |b.rows| == |b.outcomes| && i < |b.rows|
    ensures i < |Apply(c, b, s).rows| && b.outcomes[i] <= Apply(c, b, s).outcomes[i]
    ensures b.rows[i].status == Sent ==>
              Apply(c, b, s).rows[i] == b.rows[i] && Apply(c, b, s).outcomes[i] == b.outcomes[i]
  {
    match s
    case Enqueue(destination, required, now) =>
    case DispatchBatch(now, limit, dispatch) =>
      if b.rows[i].status == Sent {
        assert !Selected(b.rows, i, now, limit);
      }
  }

  lemma {:induction false} SentForGood(c: Settings, steps: seq<Step>, k: nat, i: nat)
    requires k <= |steps| && i < |Run(c, steps[..k]).rows| && Run(c, steps[..k]).rows[i].status == Sent
    ensures i < |Run(c, steps).rows| && Run(c, steps).rows[i] == Run(c, steps[..k]).rows[i]
    ensures Run(c, steps).outcomes[i] == Run(c, steps[..k]).outcomes[i]
    decreases |steps|
  {
    hide Apply;
    if k == |steps| {
      assert steps[..k] == steps;
    } else {
      var n := |steps| - 1;
      assert steps[..n][..k] == steps[..k];
      SentForGood(c, steps[..n], k, i);
      ApplyKeepsSent(c, Run(c, steps[..n]), steps[n], i);
    }
  }

  // ----- one batch, row by row -----

  /** The rows a batch takes whose dispatch returns, or raises. */
  ghost function Ended(rows: seq<Row>, now: int, limit: nat, dispatch: Dispatcher, well: bool): set<nat> {
    set i: nat | i < |rows| && Selected(rows, i, now, limit) && dispatch(i).Returned? == well
  }

  ghost function EndedAmong(ids: seq<nat>, dispatch: Dispatcher, well: bool): set<nat> {
    set i | i in ids && dispatch(i).Returned? == well
  }

  lemma OneMoreEnded(ids: seq<nat>, i: nat, dispatch: Dispatcher)
    requires i !in ids
    ensures |EndedAmong(ids + [i], dispatch, true)|
            == |EndedAmong(ids, dispatch, true)| + if dispatch(i).Returned? then 1 else 0
    ensures |EndedAmong(ids + [i], dispatch, false)|
            == |EndedAmong(ids, dispatch, false)| + if dispatch(i).Returned? then 0 else 1
  {
    var well, ill := EndedAmong(ids, dispatch, true), EndedAmong(ids, dispatch, false);
    if dispatch(i).Returned? {
      assert EndedAmong(ids + [i], dispatch, true) == well + {i} && EndedAmong(ids + [i], dispatch, false) == ill;
    } else {
      assert EndedAmong(ids + [i], dispatch, false) == ill + {i} && EndedAmong(ids + [i], dispatch, true) == well;
    }
  }

  lemma NothingEnded(dispatch: Dispatcher)
    ensures EndedAmong([], dispatch, true) == {} && EndedAmong([], dispatch, false) == {}
  {
  }

  lemma EndedIs(rows: seq<Row>, ids: seq<nat>, now: int, limit: nat, dispatch: Dispatcher)
    requires forall i: nat :: i in ids <==> i < |rows| && Selected(rows, i, now, limit)
    ensures forall well :: EndedAmong(ids, dispatch, well) == Ended(rows, now, limit, dispatch, well)
  {
  }

  /** What the batch loop has counted once it has gone through all selected rows. */
  lemma EndedCounts(rows: seq<Row>, ids: seq<nat>, now: int, limit: nat, dispatch: Dispatcher)
    requires forall i: nat :: i in ids <==> i < |rows| && Selected(rows, i, now, limit)
    ensures |EndedAmong(ids, dispatch, true)| == |Ended(rows, now, limit, dispatch, true)|
    ensures |EndedAmong(ids, dispatch, false)| == |Ended(rows, now, limit, dispatch, false)|
  {
    EndedIs(rows, ids, now, limit, dispatch);
  }

  /** A batch takes the pending and failed rows whose time has come, as long as fewer than the limit come
      before them. A row that returns is sent, dated and without error; one that raises waits out the
      delay with the error it raised, labelled by its number of attempts. Every other row stays. */
  lemma BatchRowByRow(c: Settings, rows: seq<Row>, now: int, limit: nat, dispatch: Dispatcher, i: nat)
    requires i < |rows|
    ensures var after := Batch(c, rows, now, limit, dispatch);
            var r := rows[i];
            var taken := (r.status == Pending || r.status == Failed) && r.availableAt <= now
                         && DueCount(rows[..i], now) < limit;
            && |after| == |rows|
            && after[i] == if !taken then r
                           else match dispatch(i)
                             case Returned(at) =>
                               Row(r.destination, r.required, Sent, r.attempts + 1, at, Some(at), None)
                             case Raised(at, error) =>
                               Row(r.destination, r.required,
                                   if r.attempts + 1 >= c.maxAttempts then Failed else Pending,
                                   r.attempts + 1, at + c.retrySeconds, None, Some(error))
  {
    hide DueCount;
    match dispatch(i)
    case Returned(at) =>
    case Raised(at, error) =>
  }

  /** A new row has never been tried and is due from the moment it is queued, not before. */
  lemma NewRowIsDue(destination: Destination, required: bool, now: int, t: int)
    ensures var r := NewRow(destination, required, now);
            && r.destination == destination && r.required == required && r.status == Pending && r.attempts == 0
            && r.processedAt == None && r.lastError == None && (Due(r, t) <==> now <= t)
  {
  }

  // ----- draining -----

  function Unsent(rows: seq<Row>): nat {
    if rows == [] then 0 else Unsent(rows[..|rows| - 1]) + if rows[|rows| - 1].status == Sent then 0 else 1
  }

  /** Every row that is not sent may be dispatched now. */
  ghost predicate AllDue(rows: seq<Row>, now: int) {
    forall i :: 0 <= i < |rows| && rows[i].status != Sent ==> Due(rows[i], now)
  }

  ghost predicate NeverRaises(dispatch: Dispatcher) {
    forall i: nat :: dispatch(i).Returned?
  }

  lemma {:induction false} AllDueCount(rows: seq<Row>, now: int)
    requires AllDue(rows, now)
    ensures DueCount(rows, now) == Unsent(rows)
  {
    if rows != [] {
      AllDueCount(rows[..|rows| - 1], now);
    }
  }

  /** Batches in a row, at the given times. */
  ghost function Batches(c: Settings, rows: seq<Row>, times: seq<int>, limit: nat, dispatch: Dispatcher): seq<Row> {
    if times == [] then rows
    else Batch(c, Batches(c, rows, times[..|times| - 1], limit, dispatch), times[|times| - 1], limit, dispatch)
  }

  ghost predicate NotEarlier(times: seq<int>, now: int) {
    && (forall i :: 0 <= i < |times| ==> now <= times[i])
    && forall i, j :: 0 <= i < j < |times| ==> times[i] <= times[j]
  }

  /** What happens to one row while dispatching never raises: nothing, or it is sent. */
  ghost predicate Progressed(before: seq<Row>, after: seq<Row>) {
    |after| == |before| && forall i :: 0 <= i < |before| ==> after[i] == before[i] || after[i].status == Sent
  }

  /** One batch, on any table: of the rows due at any later time, exactly those it took are gone. */
  lemma {:induction false} BatchTakes(c: Settings, rows: seq<Row>, now: int, limit: nat, dispatch: Dispatcher,
                                      later: int, k: nat)
    requires NeverRaises(dispatch) && now <= later && k <= |rows|
    ensures DueCount(Batch(c, rows, now, limit, dispatch)[..k], later)
            == DueCount(rows[..k], later) - Min(limit, DueCount(rows[..k], now))
  {
    if k > 0 {
      var after := Batch(c, rows, now, limit, dispatch);
      BatchTakes(c, rows, now, limit, dispatch, later, k - 1);
      assert after[..k][..k - 1] == after[..k - 1] && rows[..k][..k - 1] == rows[..k - 1];
      assert rows[..k][k - 1] == rows[k - 1] && after[..k][k - 1] == after[k - 1];
      assert dispatch(k - 1).Returned?;
    }
  }

  lemma {:induction false} DueCountGrows(rows: seq<Row>, now: int, later: int)
    requires now <= later
    ensures DueCount(rows, now) <= DueCount(rows, later)
  {
    if rows != [] {
      DueCountGrows(rows[..|rows| - 1], now, later);
    }
  }

  /** How many rows a series of batches takes, by arithmetic alone: each batch takes what is due at
      its time and not taken yet, up to the limit. */
  function Taken(rows: seq<Row>, times: seq<int>, limit: nat): (n: nat)
    requires InOrder(times)
    ensures times != [] ==> n <= DueCount(rows, times[|times| - 1])
    ensures times == [] ==> n == 0
  {
    if times == [] then 0
    else
      var k := |times| - 1;
      var before := Taken(rows, times[..k], limit);
      if k > 0 then DueCountGrows(rows, times[k - 1], times[k]); before + Min(limit, DueCount(rows, times[k]) - before)
      else Min(limit, DueCount(rows, times[k]))
  }

  predicate InOrder(times: seq<int>) {
    forall i, j :: 0 <= i < j < |times| ==> times[i] <= times[j]
  }

  /** Once dispatching stops raising, on any table and at any times: of the rows due at any later time
      exactly as many are left as the arithmetic says, and no row but the taken ones has changed. */
  lemma {:induction false} BatchesTake(c: Settings, rows: seq<Row>, times: seq<int>, limit: nat, dispatch: Dispatcher,
                                       later: int)
    requires NeverRaises(dispatch) && InOrder(times) && (times != [] ==> times[|times| - 1] <= later)
    ensures DueCount(Batches(c, rows, times, limit, dispatch), later)
            == DueCount(rows, later) - Taken(rows, times, limit)
    ensures Progressed(rows, Batches(c, rows, times, limit, dispatch))
  {
    hide DueCount;
    if times != [] {
      var k := |times| - 1;
      var before := Batches(c, rows, times[..k], limit, dispatch);
      BatchesTake(c, rows, times[..k], limit, dispatch, times[k]);
      BatchesTake(c, rows, times[..k], limit, dispatch, later);
      BatchTakes(c, before, times[k], limit, dispatch, later, |before|);
      assert before[..|before|] == before;
      var after := Batches(c, rows, times, limit, dispatch);
      assert after[..|before|] == after;
    }
  }

  /** Each unsent row is due at both times or at neither. */
  ghost predicate SameDue(rows: seq<Row>, now: int, later: int) {
    forall i :: 0 <= i < |rows| ==> (Due(rows[i], now) <==> Due(rows[i], later))
  }

  lemma {:induction false} SameDueCount(rows: seq<Row>, now: int, later: int)
    requires SameDue(rows, now, later)
    ensures DueCount(rows, now) == DueCount(rows, later)
  {
    if rows != [] {
      SameDueCount(rows[..|rows| - 1], now, later);
    }
  }

  lemma {:induction false} TakenWhenNoneJoin(rows: seq<Row>, now: int, times: seq<int>, limit: nat)
    requires InOrder(times) && forall t :: t in times ==> DueCount(rows, t) == DueCount(rows, now)
    ensures Taken(rows, times, limit) == Min(DueCount(rows, now), Quota(|times|, limit))
  {
    hide DueCount, Quota;
    ZeroQuota(limit);
    if times != [] {
      var k := |times| - 1;
      assert times[k] in times && forall t :: t in times[..k] ==> t in times;
      TakenWhenNoneJoin(rows, now, times[..k], limit);
      OneMore(k, limit);
    }
  }

  /** What so many batches can take at most. */
  function Quota(batches: nat, limit: nat): nat {
    batches * limit
  }

  lemma ZeroQuota(limit: nat)
    ensures Quota(0, limit) == 0
  {
  }

  lemma OneMore(k: nat, limit: nat)
    ensures Quota(k + 1, limit) == Quota(k, limit) + limit
  {
  }

  /** No row joins the due ones before the given time. */
  ghost predicate NoneJoins(rows: seq<Row>, now: int, last: int) {
    forall i :: 0 <= i < |rows| && !Due(rows[i], now) ==> !Due(rows[i], last)
  }

  /** As long as no row still waiting out its retry delay becomes due, batches of the due rows go down
      by the limit each, whatever else the table holds. */
  lemma DueRowsDrain(c: Settings, rows: seq<Row>, now: int, times: seq<int>, limit: nat, dispatch: Dispatcher)
    requires NeverRaises(dispatch) && NotEarlier(times, now)
    requires times != [] ==> NoneJoins(rows, now, times[|times| - 1])
    ensures DueCount(Batches(c, rows, times, limit, dispatch), now) == Max(0, DueCount(rows, now) - |times| * limit)
  {
    if times != [] {
      var last := times[|times| - 1];
      var after := Batches(c, rows, times, limit, dispatch);
      BatchesTake(c, rows, times, limit, dispatch, last);
      assert SameDue(after, now, last);
      SameDueCount(after, now, last);
      forall t | t in times
        ensures DueCount(rows, t) == DueCount(rows, now)
      {
        assert SameDue(rows, now, t);
        SameDueCount(rows, now, t);
      }
      TakenWhenNoneJoin(rows, now, times, limit);
    }
  }

  /** Once dispatching stops raising, the n rows due now are all sent exactly from n / limit batches
      on, rounded up, other rows still waiting or not. */
  lemma DueRowsDrainInTime(c: Settings, rows: seq<Row>, now: int, times: seq<int>, limit: nat, dispatch: Dispatcher)
    requires NeverRaises(dispatch) && NotEarlier(times, now) && limit >= 1
    requires times != [] ==> NoneJoins(rows, now, times[|times| - 1])
    ensures DueCount(Batches(c, rows, times, limit, dispatch), now) == 0
            <==> |times| >= (DueCount(rows, now) + limit - 1) / limit
  {
    DueRowsDrain(c, rows, now, times, limit, dispatch);
    RoundedUp(DueCount(rows, now), limit, |times|);
  }

  /** Where every unsent row is due, that empties the table. */
  lemma DrainsInTime(c: Settings, rows: seq<Row>, now: int, times: seq<int>, limit: nat, dispatch: Dispatcher)
    requires AllDue(rows, now) && NeverRaises(dispatch) && NotEarlier(times, now) && limit >= 1
    ensures Unsent(Batches(c, rows, times, limit, dispatch)) == 0 <==> |times| >= (Unsent(rows) + limit - 1) / limit
  {
    var last := if times == [] then now else times[|times| - 1];
    DueRowsDrainInTime(c, rows, now, times, limit, dispatch);
    BatchesTake(c, rows, times, limit, dispatch, last);
    AllDueCount(rows, now);
    AllDueCount(Batches(c, rows, times, limit, dispatch), now);
  }

  /** With rows still waiting, too: when early batches are followed by late ones, run once every
      unsent row is due, each late batch sends a whole limit until the table is empty. */
  lemma {:induction false} LateBatchesEmpty(c: Settings, rows: seq<Row>, early: seq<int>, late: seq<int>, limit: nat,
                                            dispatch: Dispatcher)
    requires NeverRaises(dispatch) && InOrder(early + late) && forall t :: t in late ==> AllDue(rows, t)
    ensures InOrder(early)
    ensures late != [] ==> Unsent(Batches(c, rows, early + late, limit, dispatch))
                           == Max(0, Unsent(rows) - Taken(rows, early, limit) - |late| * limit)
  {
    var times := early + late;
    assert times[..|early|] == early;
    if late != [] {
      var last := late[|late| - 1];
      assert times[|times| - 1] == last;
      BatchesTake(c, rows, times, limit, dispatch, last);
      AllDueCount(rows, last);
      AllDueCount(Batches(c, rows, times, limit, dispatch), last);
      TakenLate(rows, early, late, limit);
    }
  }

  /** A batch at which every unsent row is due takes a whole limit, or what is left. */
  lemma TakenOnceDue(rows: seq<Row>, times: seq<int>, limit: nat)
    requires times != [] && InOrder(times) && AllDue(rows, times[|times| - 1])
    ensures InOrder(times[..|times| - 1])
    ensures Taken(rows, times, limit) == Min(Unsent(rows), Taken(rows, times[..|times| - 1], limit) + limit)
  {
    hide AllDue, DueCount, Unsent;
    var n := |times| - 1;
    AllDueCount(rows, times[n]);
    if n > 0 {
      DueCountGrows(rows, times[n - 1], times[n]);
    }
  }

  lemma {:induction false} TakenLate(rows: seq<Row>, early: seq<int>, late: seq<int>, limit: nat)
    requires InOrder(early + late) && InOrder(early) && late != [] && forall t :: t in late ==> AllDue(rows, t)
    ensures Taken(rows, early + late, limit) == Min(Unsent(rows), Taken(rows, early, limit) + Quota(|late|, limit))
    decreases |late|
  {
    hide AllDue, Unsent, Quota, Taken, InOrder;
    var times, k := early + late, |late| - 1;
    var before := early + late[..k];
    assert times[|times| - 1] == late[k] && times[..|times| - 1] == before;
    TakenOnceDue(rows, times, limit);
    OneMore(k, limit);
    if k > 0 {
      TakenLate(rows, early, late[..k], limit);
    } else {
      ZeroQuota(limit);
      assert before == early;
    }
  }

  lemma RoundedUp(n: nat, d: nat, k: nat)
    requires d >= 1
    ensures k * d >= n <==> k >= (n + d - 1) / d
  {
    var q := (n + d - 1) / d;
    QuotientBounds(n + d - 1, d);
    assert q * d <= n + d - 1 < q * d + d;
    if k >= q {
      MultiplesOrdered(q, k, d);
    } else {
      MultiplesOrdered(k + 1, q, d);
      assert (k + 1) * d == k * d + d;
    }
  }

  lemma MultiplesOrdered(a: nat, b: nat, d: nat)
    requires a <= b
    ensures a * d <= b * d
  {
  }

  // ----- the cap is only a label -----

  ghost function AlwaysRaising(t: int): Dispatcher {
    (i: nat) => Raised(t, "")
  }

  /** One row, queued at time 0 and dispatched n times in vain, a retry delay apart. */
  ghost function VainRun(c: Settings, n: nat): seq<Step> {
    if n == 0 then [Enqueue(Mongo, false, 0)]
    else VainRun(c, n - 1) + [DispatchBatch((n - 1) * c.retrySeconds, 1, AlwaysRaising((n - 1) * c.retrySeconds))]
  }

  /** The attempt cap never stops a row: in every run, a row that is not sent is dispatched by a batch
      exactly when its delay is over and fewer due rows than the limit come before it, whatever its
      number of attempts. */
  lemma UnsentIsRetried(c: Settings, steps: seq<Step>, i: nat, now: int, limit: nat, dispatch: Dispatcher)
    requires Clamped(c) && i < |Run(c, steps).rows| && Run(c, steps).rows[i].status != Sent
    ensures var b := Run(c, steps);
            var after := Apply(c, b, DispatchBatch(now, limit, dispatch));
            after.outcomes[i] == b.outcomes[i] + [dispatch(i).Returned?]
            <==> b.rows[i].availableAt <= now && DueCount(b.rows[..i], now) < limit
  {
    RunTruthful(c, steps);
    assert Truthful(c, Run(c, steps).rows[i], Run(c, steps).outcomes[i]);
    hide Run, Dispatched, DueCount;
  }

  /** For example, one row dispatched in vain any number of times is still tried again. */
  lemma {:induction false} NeverGivesUp(c: Settings, n: nat)
    requires Clamped(c)
    ensures var b := Run(c, VainRun(c, n));
            |b.rows| == 1 && b.rows[0].attempts == n && b.rows[0].availableAt == n * c.retrySeconds
            && b.rows[0].status == (if n >= c.maxAttempts then Failed else Pending)
  {
    var steps := VainRun(c, n);
    if n == 0 {
      assert steps[..0] == [];
      assert Run(c, steps[..0]) == Box([], []);
    } else {
      NeverGivesUp(c, n - 1);
      assert steps[..|steps| - 1] == VainRun(c, n - 1);
      var before := Run(c, VainRun(c, n - 1));
      var t := (n - 1) * c.retrySeconds;
      assert before.rows[..0] == [];
      assert Selected(before.rows, 0, t, 1);
      var after := Run(c, steps);
      assert after == Apply(c, before, DispatchBatch(t, 1, AlwaysRaising(t)));
      assert after.rows[0] == Dispatched(c, before.rows[0], Raised(t, ""));
      assert n * c.retrySeconds == t + c.retrySeconds;
    }
  }

  // ----- the table, updated in place -----

  class OutboxTable {
    const settings: Settings
    const batchSize: int
    var rows: seq<Row>

    /** The settings are clamped when the module loads. */
    constructor (batchSize: int, retrySeconds: int, maxAttempts: int)
      ensures rows == [] && Clamped(settings) && this.batchSize == Max(1, batchSize)
      ensures settings.retrySeconds == (if retrySeconds >= 2 then retrySeconds else 2)
              && settings.maxAttempts == (if maxAttempts >= 1 then maxAttempts else 1)
    {
      this.batchSize := Max(1, batchSize);
      settings := Settings(Max(2, retrySeconds), Max(1, maxAttempts));
      rows := [];
    }

    method EnqueueMongoUpsert(required: bool, now: int) returns (id: nat)
      modifies this`rows
      ensures id == |old(rows)| && rows == old(rows) + [NewRow(Mongo, required, now)]
    {
      id := |rows|;
      rows := rows + [NewRow(Mongo, required, now)];
    }

    method EnqueueRealtimeEvent(required: bool, now: int) returns (id: nat)
      modifies this`rows
      ensures id == |old(rows)| && rows == old(rows) + [NewRow(Realtime, required, now)]
    {
      id := |rows|;
      rows := rows + [NewRow(Realtime, required, now)];
    }

    /** The query: due rows in id order, at most limit of them. */
    method SelectDue(now: int, limit: nat) returns (ids: seq<nat>)
      ensures forall i: nat :: i in ids <==> i < |rows| && Selected(rows, i, now, limit)
      ensures forall k, m :: 0 <= k < m < |ids| ==> ids[k] < ids[m]
      ensures |ids| == Min(limit, DueCount(rows, now))
    {
      ids := [];
      for i := 0 to |rows|
        invariant forall j: nat :: j in ids <==> j < i && Selected(rows, j, now, limit)
        invariant forall k, m :: 0 <= k < m < |ids| ==> ids[k] < ids[m]
        invariant forall k :: 0 <= k < |ids| ==> ids[k] < i
        invariant |ids| == Min(limit, DueCount(rows[..i], now))
      {
        assert rows[..i + 1][..i] == rows[..i];
        if |ids| < limit && Due(rows[i], now) {
          ids := ids + [i];
        }
      }
      assert rows[..|rows|] == rows;
    }

    method DispatchOutboxBatch(requested: int, now: int, dispatch: Dispatcher)
      returns (attempted: nat, dispatched: nat, failed: nat)
      modifies this`rows
      ensures var limit := Max(1, if requested == 0 then batchSize else requested);
              rows == Batch(settings, old(rows), now, limit, dispatch)
              && attempted == Min(limit, DueCount(old(rows), now))
      ensures attempted == dispatched + failed
      ensures var limit := Max(1, if requested == 0 then batchSize else requested);
              && dispatched == |Ended(old(rows), now, limit, dispatch, true)|
              && failed == |Ended(old(rows), now, limit, dispatch, false)|
    {
      hide Selected, DueCount, Ended, EndedAmong;
      NothingEnded(dispatch);
      var limit := Max(1, if requested == 0 then batchSize else requested);
      var ids := SelectDue(now, limit);
      dispatched, failed := 0, 0;
      for k := 0 to |ids|
        invariant |rows| == |old(rows)| && dispatched + failed == k
        invariant dispatched == |EndedAmong(ids[..k], dispatch, true)|
                  && failed == |EndedAmong(ids[..k], dispatch, false)|
        invariant forall i: nat :: i < |rows| ==>
          rows[i] == if i in ids[..k] then Dispatched(settings, old(rows)[i], dispatch(i)) else old(rows)[i]
      {
        var i := ids[k];
        assert i in ids;
        assert ids[..k + 1] == ids[..k] + [i] && i !in ids[..k];
        OneMoreEnded(ids[..k], i, dispatch);
        var row := rows[i].(attempts := rows[i].attempts + 1, status := Processing, processedAt := None,
                            lastError := None);
        match dispatch(i) {
          case Raised(at, error) =>
            failed := failed + 1;
            row := row.(lastError := Some(error), availableAt := at + settings.retrySeconds,
                        status := if row.attempts >= settings.maxAttempts then Failed else Pending);
          case Returned(at) =>
            dispatched := dispatched + 1;
            row := row.(status := Sent, processedAt := Some(at), availableAt := at, lastError := None);
        }
        rows := rows[i := row];
      }
      assert ids[..|ids|] == ids;
      EndedCounts(old(rows), ids, now, limit, dispatch);
      attempted := |ids|;
    }
  }
}
