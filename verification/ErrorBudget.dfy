/** The error budget: a pruned queue of request outcomes that stands for the whole request log, and
    the alerts raised from it. Times are seconds; ratios are exact. */
module ErrorBudget {
  import opened Basics

  datatype Sample = Sample(at: int, ok: bool)

  // ----- the sliding window -----

  /** Drops entries from the front as long as they are too old. */
  function Prune(events: seq<Sample>, oldest: int): seq<Sample> {
    if events != [] && events[0].at < oldest then Prune(events[1..], oldest) else events
  }

  /** The entries of a log that are not too old, wherever they stand. */
  function Within(log: seq<Sample>, oldest: int): seq<Sample> {
    if log == [] then []
    else Within(log[..|log| - 1], oldest) + if log[|log| - 1].at >= oldest then [log[|log| - 1]] else []
  }

  function Errors(log: seq<Sample>): nat {
    if log == [] then 0 else Errors(log[..|log| - 1]) + if log[|log| - 1].ok then 0 else 1
  }

  ghost function Failures(log: seq<Sample>): set<nat> {
    set i: nat | i < |log| && !log[i].ok
  }

  lemma OneMoreSample(log: seq<Sample>, s: Sample)
    ensures Failures(log + [s]) == Failures(log) + if s.ok then {} else {|log|}
  {
  }

  /** The failures of a log are counted one by one. */
  lemma {:induction false} ErrorsAre(log: seq<Sample>)
    ensures Errors(log) == |Failures(log)| <= |log|
  {
    if log != [] {
      var n := |log| - 1;
      ErrorsAre(log[..n]);
      OneMoreSample(log[..n], log[n]);
      assert log == log[..n] + [log[n]];
      hide Failures;
    }
  }

  function Cutoff(window: int, now: int): int {
    now - Max(60, window)
  }

  /** A window reaches back at least a minute, and contains exactly the samples not older than that, each as
      often as the log has it. */
  lemma {:induction false} WindowIs(log: seq<Sample>, window: int, now: int)
    ensures var reach := if window >= 60 then window else 60;
            forall e :: multiset(Within(log, Cutoff(window, now)))[e]
                        == if now - e.at <= reach then multiset(log)[e] else 0
    ensures |Within(log, Cutoff(window, now))| <= |log|
  {
    if log != [] {
      var n := |log| - 1;
      WindowIs(log[..n], window, now);
      assert log == log[..n] + [log[n]];
    }
  }

  ghost predicate Sorted(log: seq<Sample>) {
    forall i, j :: 0 <= i < j < |log| ==> log[i].at <= log[j].at
  }

  ghost predicate NotAfter(log: seq<Sample>, now: int) {
    forall i :: 0 <= i < |log| ==> log[i].at <= now
  }

  lemma {:induction false} WithinConcat(a: seq<Sample>, b: seq<Sample>, oldest: int)
    ensures Within(a + b, oldest) == Within(a, oldest) + Within(b, oldest)
  {
    if b == [] {
      assert a + b == a;
    } else {
      var n := |b| - 1;
      assert (a + b)[..|a + b| - 1] == a + b[..n];
      WithinConcat(a, b[..n], oldest);
    }
  }

  lemma {:induction false} WithinAll(log: seq<Sample>, oldest: int)
    requires forall i :: 0 <= i < |log| ==> log[i].at >= oldest
    ensures Within(log, oldest) == log
  {
    if log != [] {
      WithinAll(log[..|log| - 1], oldest);
    }
  }

  /** Pruning at one instant leaves every later window as it was. */
  lemma {:induction false} PruneKeepsWindows(events: seq<Sample>, oldest: int, later: int)
    requires oldest <= later
    ensures Within(Prune(events, oldest), later) == Within(events, later)
    decreases |events|
  {
    if events != [] && events[0].at < oldest {
      PruneKeepsWindows(events[1..], oldest, later);
      assert events == [events[0]] + events[1..];
      WithinConcat([events[0]], events[1..], later);
      assert [events[0]][..0] == [];
    }
  }

  /** On a sorted queue, pruning the front is filtering. */
  lemma {:induction false} PruneIsWithin(events: seq<Sample>, oldest: int)
    requires Sorted(events)
    ensures Prune(events, oldest) == Within(events, oldest) && Sorted(Prune(events, oldest))
    ensures forall now :: NotAfter(events, now) ==> NotAfter(Prune(events, oldest), now)
    decreases |events|
  {
    if events != [] && events[0].at < oldest {
      PruneIsWithin(events[1..], oldest);
      assert events == [events[0]] + events[1..];
      WithinConcat([events[0]], events[1..], oldest);
      assert [events[0]][..0] == [];
      forall now | NotAfter(events, now)
        ensures NotAfter(Prune(events, oldest), now)
      {
        assert NotAfter(events[1..], now);
      }
    } else {
      WithinAll(events, oldest);
    }
  }

  /** From the cut-off on, the queue and the log show the same windows. */
  ghost predicate Represents(events: seq<Sample>, log: seq<Sample>, cutoff: int) {
    forall c :: cutoff <= c ==> Within(events, c) == Within(log, c)
  }

  lemma AddRepresents(events: seq<Sample>, log: seq<Sample>, cutoff: int, s: Sample)
    requires Represents(events, log, cutoff)
    ensures Represents(events + [s], log + [s], cutoff)
  {
    forall c | cutoff <= c
      ensures Within(events + [s], c) == Within(log + [s], c)
    {
      WithinConcat(events, [s], c);
      WithinConcat(log, [s], c);
    }
  }

  lemma PruneRepresents(events: seq<Sample>, log: seq<Sample>, cutoff: int, oldest: int)
    requires Represents(events, log, cutoff) && cutoff <= oldest
    ensures Represents(Prune(events, oldest), log, oldest)
  {
    forall c | oldest <= c
      ensures Within(Prune(events, oldest), c) == Within(log, c)
    {
      PruneKeepsWindows(events, oldest, c);
    }
  }

  // ----- the figures -----

  datatype AlertState = Healthy | Warning | Critical

  datatype Figures = Figures(total: nat, errors: nat, availability: real, burnRate: real, budgetRemaining: real,
                             state: AlertState)

  /** The target is clamped between 0.90 and 0.9999. */
  function ClampTarget(target: real): real {
    if target < 0.90 then 0.90 else if target > 0.9999 then 0.9999 else target
  }

  function BudgetOf(target: real): real {
    if 1.0 - target < 0.000000001 then 0.000000001 else 1.0 - target
  }

  function Assess(total: nat, errors: nat, target: real): Figures {
    var rate := if total > 0 then errors as real / total as real else 0.0;
    var burn := rate / BudgetOf(target);
    Figures(total, errors,
            if total > 0 then (if total < errors then 0.0 else (total - errors) as real / total as real) else 1.0,
            burn, if 1.0 - burn < 0.0 then 0.0 else 1.0 - burn,
            if burn >= 2.0 then Critical else if burn >= 1.0 then Warning else Healthy)
  }

  lemma QuotientAtLeast(a: real, b: real, k: real)
    requires b > 0.0
    ensures a / b >= k <==> a >= k * b
  {
    var q := a / b;
    assert q * b == a;
    if q >= k {
      ProductOrdered(k, q, b);
    } else {
      StrictlyOrdered(q, k, b);
    }
  }

  lemma ProductOrdered(x: real, y: real, b: real)
    requires x <= y && b > 0.0
    ensures x * b <= y * b
  {
    assert (y - x) * b >= 0.0;
  }

  lemma StrictlyOrdered(x: real, y: real, b: real)
    requires x < y && b > 0.0
    ensures x * b < y * b
  {
    assert (y - x) * b > 0.0;
  }

  /** The alert state without any division: the errors against one and two budgets' worth of requests. */
  lemma StateIsThreshold(total: nat, errors: nat, target: real)
    requires errors <= total
    ensures var allowed := BudgetOf(target) * total as real;
            var state := Assess(total, errors, target).state;
            && (state == Critical <==> total > 0 && errors as real >= 2.0 * allowed)
            && (state != Healthy <==> total > 0 && errors as real >= allowed)
  {
    var b := BudgetOf(target);
    if total > 0 {
      var rate := errors as real / total as real;
      QuotientAtLeast(rate, b, 1.0);
      QuotientAtLeast(rate, b, 2.0);
      QuotientAtLeast(errors as real, total as real, b);
      QuotientAtLeast(errors as real, total as real, 2.0 * b);
      assert (2.0 * b) * total as real == 2.0 * (b * total as real);
    } else {
      QuotientAtLeast(0.0, b, 1.0);
      QuotientAtLeast(0.0, b, 2.0);
    }
  }

  /** The figures belong together: what was served and what failed make up the total, the burn rate is
      the errors over the budget, and the rest of the budget is what it leaves, if anything. */
  lemma FiguresBalance(total: nat, errors: nat, target: real)
    requires errors <= total
    ensures var f := Assess(total, errors, target);
            && f.total == total && f.errors == errors
            && f.availability * total as real == (total - errors) as real && (total == 0 ==> f.availability == 1.0)
            && f.burnRate * BudgetOf(target) * total as real == errors as real && (total == 0 ==> f.burnRate == 0.0)
            && f.budgetRemaining == if f.burnRate <= 1.0 then 1.0 - f.burnRate else 0.0
  {
    if total > 0 {
      var rate := errors as real / total as real;
      Undone(errors as real, total as real);
      Undone((total - errors) as real, total as real);
      Undone(rate, BudgetOf(target));
    } else {
      Undone(0.0, BudgetOf(target));
    }
  }

  lemma Undone(x: real, y: real)
    requires y > 0.0
    ensures (x / y) * y == x && (x == 0.0 ==> x / y == 0.0)
  {
  }

  /** The budget is what the target leaves, and the target is kept between 0.90 and 0.9999. */
  lemma TargetIsHonoured(target: real)
    ensures 0.90 <= target <= 0.9999 ==> ClampTarget(target) == target
    ensures target < 0.90 ==> ClampTarget(target) == 0.90
    ensures target > 0.9999 ==> ClampTarget(target) == 0.9999
    ensures BudgetOf(ClampTarget(target)) == 1.0 - ClampTarget(target)
  {
  }

  // ----- alerts -----

  datatype Message = Alert(state: AlertState, at: int) | Recovered(at: int)

  /** The two module variables, and the messages logged so far. */
  datatype Alarm = Alarm(lastState: AlertState, lastEmitted: int, messages: seq<Message>)

  const QUIET: Alarm := Alarm(Healthy, 0, [])

  function React(a: Alarm, current: AlertState, now: int): Alarm {
    if current != Healthy && (current != a.lastState || now - a.lastEmitted >= 60) then
      Alarm(current, now, a.messages + [Alert(current, now)])
    else if current == Healthy && a.lastState != Healthy then
      Alarm(Healthy, now, a.messages + [Recovered(now)])
    else a
  }

  function StateOf(m: Message): AlertState {
    match m
    case Alert(state, _) => state
    case Recovered(_) => Healthy
  }

  /** The module variables repeat the last message; equal alerts in a row are a minute apart; every
      recovery directly follows an alert; an alert always names a problem. */
  ghost predicate WellSpaced(a: Alarm) {
    && (if a.messages == [] then a.lastState == Healthy
        else a.lastState == StateOf(a.messages[|a.messages| - 1]) && a.lastEmitted == a.messages[|a.messages| - 1].at)
    && (forall i :: 0 <= i < |a.messages| ==> (a.messages[i].Alert? ==> a.messages[i].state != Healthy))
    && (forall i :: 0 < i < |a.messages| && StateOf(a.messages[i]) == StateOf(a.messages[i - 1]) ==>
                      a.messages[i].at - a.messages[i - 1].at >= 60)
    && (forall i :: 0 <= i < |a.messages| && a.messages[i].Recovered? ==> i > 0 && a.messages[i - 1].Alert?)
  }

  lemma ReactWellSpaced(a: Alarm, current: AlertState, now: int)
    requires WellSpaced(a)
    ensures WellSpaced(React(a, current, now))
  {
    var b := React(a, current, now);
    if b != a {
      var n := |a.messages|;
      assert forall i :: 0 <= i < n ==> b.messages[i] == a.messages[i];
    }
  }

  function RunAlarm(readings: seq<(AlertState, int)>): Alarm {
    if readings == [] then QUIET
    else React(RunAlarm(readings[..|readings| - 1]), readings[|readings| - 1].0, readings[|readings| - 1].1)
  }

  /** In every run, repeated alerts of one state are at least a minute apart and each recovery
      message directly follows an alert. */
  lemma {:induction false} RunWellSpaced(readings: seq<(AlertState, int)>)
    ensures WellSpaced(RunAlarm(readings))
  {
    hide WellSpaced, React;
    if readings == [] {
      QuietWellSpaced();
    } else {
      var n := |readings| - 1;
      RunWellSpaced(readings[..n]);
      ReactWellSpaced(RunAlarm(readings[..n]), readings[n].0, readings[n].1);
    }
  }

  lemma QuietWellSpaced()
    ensures WellSpaced(QUIET)
  {
  }

  /** No problem goes unreported: while it lasts, the last message names it and is at most a minute
      old; and as soon as it is over the last message says so. */
  lemma NothingUnreported(a: Alarm, current: AlertState, now: int)
    requires WellSpaced(a)
    ensures var b := React(a, current, now);
            && (current != Healthy ==> b.messages != [] && StateOf(b.messages[|b.messages| - 1]) == current
                                       && now - b.messages[|b.messages| - 1].at < 60)
            && (current == Healthy && b.messages != [] ==> b.messages[|b.messages| - 1].Recovered?)
  {
  }

  // ----- the tracker and the middleware, updated in place -----

  class Middleware {
    const target: real
    const window: int
    var events: seq<Sample>
    var lastState: AlertState
    var lastEmitted: int
    var messages: seq<Message>
    ghost var log: seq<Sample>
    ghost var cutoff: int
    ghost var clock: int

    ghost function AlarmState(): Alarm
      reads this
    {
      Alarm(lastState, lastEmitted, messages)
    }

    ghost predicate Valid()
      reads this
    {
      && Sorted(events) && NotAfter(events, clock)
      && Represents(events, log, cutoff) && cutoff <= Cutoff(window, clock)
      && WellSpaced(AlarmState())
    }

    constructor (target: real, window: int, now: int)
      ensures Valid() && log == [] && messages == [] && clock == now
      ensures this.target == ClampTarget(target) && this.window == Max(300, window)
    {
      this.target := ClampTarget(target);
      this.window := Max(300, window);
      events, lastState, lastEmitted, messages := [], Healthy, 0, [];
      log, cutoff, clock := [], Cutoff(Max(300, window), now), now;
    }

    method Add(ok: bool, now: int)
      requires Valid() && clock <= now
      modifies this`events, this`log, this`clock
      ensures Valid() && log == old(log) + [Sample(now, ok)] && clock == now
    {
      hide Represents, WellSpaced;
      AddRepresents(events, log, cutoff, Sample(now, ok));
      events := events + [Sample(now, ok)];
      log := log + [Sample(now, ok)];
      clock := now;
    }

    /** The figures are those of the full, unpruned log. */
    method Snapshot(now: int) returns (f: Figures)
      requires Valid() && clock <= now
      modifies this`events, this`cutoff, this`clock
      ensures Valid() && clock == now
      ensures var recent := Within(log, Cutoff(window, now)); f == Assess(|recent|, Errors(recent), target)
    {
      hide Represents, WellSpaced, Within, Assess;
      var oldest := now - Max(60, window);
      ghost var before := events;
      PruneRepresents(events, log, cutoff, oldest);
      PruneIsWithin(events, oldest);
      RepresentsAt(events, log, cutoff, oldest);
      while events != []
        invariant Prune(events, oldest) == Prune(before, oldest)
        decreases |events|
      {
        if events[0].at >= oldest {
          break;
        }
        events := events[1..];
      }
      var errors := 0;
      for i := 0 to |events|
        invariant errors == Errors(events[..i])
        invariant events == Prune(before, oldest)
      {
        assert events[..i + 1][..i] == events[..i];
        if !events[i].ok {
          errors := errors + 1;
        }
      }
      assert events[..|events|] == events;
      f := Assess(|events|, errors, target);
      cutoff, clock := oldest, now;
    }

    /** One request: its outcome is recorded, the window is read, and the alarm reacts. */
    method OnRequest(statusCode: int, addedAt: int, readAt: int, now: int) returns (f: Figures)
      requires Valid() && clock <= addedAt <= readAt <= now
      modifies this
      ensures Valid() && log == old(log) + [Sample(addedAt, statusCode < 500)]
      ensures var recent := Within(log, Cutoff(window, readAt));
              f == Assess(|recent|, Errors(recent), target)
      ensures AlarmState() == React(old(AlarmState()), f.state, now)
    {
      hide Represents, WellSpaced, Within, Assess, Errors;
      Add(statusCode < 500, addedAt);
      f := Snapshot(readAt);
      ReactWellSpaced(AlarmState(), f.state, now);
      var emit := f.state != Healthy && (f.state != lastState || now - lastEmitted >= 60);
      if emit {
        messages := messages + [Alert(f.state, now)];
        lastState, lastEmitted := f.state, now;
      } else if f.state == Healthy && lastState != Healthy {
        messages := messages + [Recovered(now)];
        lastState, lastEmitted := Healthy, now;
      }
    }
  }

  lemma RepresentsAt(events: seq<Sample>, log: seq<Sample>, cutoff: int, c: int)
    requires Represents(events, log, cutoff) && cutoff <= c
    ensures Within(events, c) == Within(log, c)
  {
  }
}
