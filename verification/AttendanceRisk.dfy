/** What every snapshot satisfies, and the severity computed from it. */
module AttendanceRisk {
  import opened AttendanceCalendar
  import opened AttendanceSnapshot
  import opened Basics

  // ----- laws of the snapshot -----

  ghost function DaysIn(occurrences: set<Occurrence>): set<Day> {
    set o | o in occurrences :: o.day
  }

  lemma {:induction false} DaysAtMost(occurrences: set<Occurrence>)
    ensures |DaysIn(occurrences)| <= |occurrences|
    decreases |occurrences|
  {
    if occurrences != {} {
      var o :| o in occurrences;
      var rest := occurrences - {o};
      DaysAtMost(rest);
      assert DaysIn(occurrences) == DaysIn(rest) + {o.day};
    }
  }

  lemma TrailingAtMostMissed(m: Marks)
    ensures |TrailingAbsentDays(m)| <= |Missed(m)|
  {
    DaysAtMost(Missed(m));
    forall d | d in TrailingAbsentDays(m)
      ensures d in DaysIn(Missed(m))
    {
      var o :| o in m && o.day == d;
      assert m[o] ==> d in AttendedDays(m);
      assert o in Missed(m);
    }
    SubsetSize(TrailingAbsentDays(m), DaysIn(Missed(m)));
  }

  /** Present and absent classes add up, the absence run is covered by absences, and the
      percentage is a percentage. */
  lemma SnapshotBalances(x: Evidence)
    ensures var s := SnapshotOf(x);
            && s.present + s.absent == s.delivered
            && s.consecutive <= s.absent
            && s.hundredths <= 10000
            && (s.absent == 0 < s.delivered ==> s.hundredths == 10000)
            && (s.present == 0 ==> s.hundredths == 0)
  {
    hide MarksOver, Occurrences, Attended, RoundedPercent, LatestOf, FallbackDelivered;
    var s := SnapshotOf(x);
    var m := MarksOver(x, Occurrences(x));
    AttendedWithin(m);
    TrailingAtMostMissed(m);
    if |m| == 0 {
      assert m == map[];
      assert Missed(m) == {};
    }
    if s.delivered > 0 {
      RoundedPercentEnds(s.present, s.delivered);
    }
  }

  lemma RoundedPercentEnds(a: nat, d: nat)
    requires a <= d && d > 0
    ensures RoundedPercent(a, d) <= 10000
    ensures a == d ==> RoundedPercent(a, d) == 10000
    ensures a == 0 ==> RoundedPercent(a, d) == 0
  {
    QuotientIs(10000 * d, d, 10000);
    RoundedPercentMonotone(a, d, d);
  }

  lemma AtLeastOnce(k: int, d: nat)
    requires k >= 1
    ensures k * d >= d
  {
  }

  lemma Distributes(p: int, q: int, d: int)
    ensures (p - q) * d == p * d - q * d
  {
  }

  lemma QuotientMonotone(a: nat, b: nat, d: nat)
    requires a <= b && d > 0
    ensures a / d <= b / d
  {
    var p, q := a / d, b / d;
    QuotientBounds(a, d);
    QuotientBounds(b, d);
    Distributes(p, q, d);
    if p - q >= 1 {
      AtLeastOnce(p - q, d);
    }
  }

  lemma QuotientIs(n: nat, d: nat, q: nat)
    requires d > 0 && n == q * d
    ensures n / d == q && n % d == 0
  {
    var p := n / d;
    QuotientBounds(n, d);
    Distributes(p, q, d);
    Distributes(q, p, d);
    if p - q >= 1 {
      AtLeastOnce(p - q, d);
    } else if q - p >= 1 {
      AtLeastOnce(q - p, d);
    }
  }

  /** The rounded percentage never falls when one more class is attended. */
  lemma RoundedPercentMonotone(a: nat, b: nat, d: nat)
    requires a <= b && d > 0
    ensures RoundedPercent(a, d) <= RoundedPercent(b, d)
  {
    var m, n := 10000 * a, 10000 * b;
    QuotientMonotone(m, n, d);
    QuotientBounds(m, d);
    QuotientBounds(n, d);
  }

  /** Each class is counted once: the started slots by the closed form, the counted submissions
      outside them and the days known from a record alone never overlap, and together they are what is
      delivered. This fails exactly when the merge finds no class although there is a submission. */
  lemma EachClassCountedOnce(x: Evidence)
    requires Fetched(x)
    ensures SnapshotOf(x).delivered
            == DeliveredBySchedule(x.schedules, x.from, x.now) + |ExtraSlots(x)| + |RecordOnly(x)|
            <==> Occurrences(x) != {} || x.submissions == []
  {
    hide StartedSlots, ExtraSlots, RecordOnly, Fetched;
    ScheduleSumIsStartedSlots(x);
    OccurrencesDisjoint(x);
    var m := MarksOver(x, Occurrences(x));
    assert m.Keys == Occurrences(x);
    assert |StartedSlots(x) + ExtraSlots(x)| == |StartedSlots(x)| + |ExtraSlots(x)|;
    if Occurrences(x) == {} {
      assert m == map[];
      FallbackIsPositive(x);
    }
  }

  lemma {:induction false} SubmissionMapEmpty(rows: seq<Submission>)
    ensures SubmissionMap(rows) == map[] <==> rows == []
  {
    if rows != [] {
      var r := rows[|rows| - 1];
      assert (r.scheduleId, r.classDate) in SubmissionMap(rows);
    }
  }

  /** When the merge finds no class, a record day is there only beside a submission. */
  lemma FallbackIsPositive(x: Evidence)
    requires Occurrences(x) == {}
    ensures FallbackDelivered(x) > 0 <==> x.submissions != []
  {
    hide StartedSlots, ExtraSlots, NotYet;
    SubmissionMapEmpty(x.submissions);
    if x.submissions == [] {
      assert SubmissionDays(x) == {};
      forall d: Day
        ensures d !in RecordDates(x.records)
      {
        RecordOnlyMembers(x, d);
      }
      assert RecordDates(x.records) == {};
    } else {
      assert |SubmissionMap(x.submissions)| > 0;
    }
  }

  /** What the fallback then counts: the larger of the record days and the submitted slots, although
      nothing has started and every submission is for a class still ahead. */
  lemma FallbackCountsClassesAhead(x: Evidence)
    requires Fetched(x) && Occurrences(x) == {} && x.submissions != []
    ensures DeliveredBySchedule(x.schedules, x.from, x.now) == 0
    ensures forall key :: key in SubmissionMap(x.submissions) ==> NotYet(x, key)
    ensures SnapshotOf(x).delivered == FallbackDelivered(x) > 0 && SnapshotOf(x).consecutive == 0
  {
    ScheduleSumIsStartedSlots(x);
    FallbackIsPositive(x);
    forall key | key in SubmissionMap(x.submissions)
      ensures NotYet(x, key)
    {
      ExtraMembers(x, key);
    }
    hide StartedSlots, ExtraSlots, RecordOnly, NotYet, Fetched;
    var m := MarksOver(x, Occurrences(x));
    assert m == map[];
    assert DaysOf(m) == {};
    assert TrailingAbsentDays(m) == {};
  }

  /** It can happen: a submission approved before its class begins counts as a class missed. */
  lemma ClassAheadCountedExample()
    ensures var x := Evidence([Schedule(1, 0, 36000)], [Submission(1, 0, Approved)], [], 0, Moment(0, 30000));
            Fetched(x) && SnapshotOf(x).delivered == 1 && SnapshotOf(x).present == 0 && SnapshotOf(x).absent == 1
  {
    var x := Evidence([Schedule(1, 0, 36000)], [Submission(1, 0, Approved)], [], 0, Moment(0, 30000));
    NothingOccurs(x);
    hide Occurrences;
    var m := MarksOver(x, Occurrences(x));
    assert m == map[];
    assert x.submissions[..0] == [] && x.records == [];
    assert SubmissionMap(x.submissions) == map[(1, 0) := Approved];
    assert RecordDates(x.records) == {};
  }

  lemma NothingOccurs(x: Evidence)
    requires x == Evidence([Schedule(1, 0, 36000)], [Submission(1, 0, Approved)], [], 0, Moment(0, 30000))
    ensures Occurrences(x) == {}
  {
    assert x.submissions[..0] == [];
    assert SubmissionMap(x.submissions) == map[(1, 0) := Approved];
    assert forall d :: d in DeliveredDays(x.schedules[0], x.from, x.now) ==> d == 0;
    assert NotYet(x, (1, 0));
    forall o | o in StartedSlots(x)
      ensures false
    {
      StartedSlotsMembers(x, o);
    }
    assert ExtraSlots(x) == {};
    assert RecordDates(x.records) == {};
  }

  lemma OccurrencesDisjoint(x: Evidence)
    ensures StartedSlots(x) !! ExtraSlots(x)
    ensures StartedSlots(x) + ExtraSlots(x) !! RecordOnly(x)
  {
    forall o | o in StartedSlots(x)
      ensures o.Slot?
    {
      StartedSlotsMembers(x, o);
    }
  }

  // ----- what counts as attended -----

  /** A class with a submission is attended exactly if the submission is verified or approved. */
  lemma SubmissionDecides(x: Evidence, key: SlotKey)
    requires key in SubmissionMap(x.submissions)
    ensures IsPresent(x, Slot(key.0, key.1))
            <==> SubmissionMap(x.submissions)[key] == Verified || SubmissionMap(x.submissions)[key] == Approved
    ensures SubmissionMap(x.submissions)[key] == PendingReview || SubmissionMap(x.submissions)[key] == Rejected ==>
              !IsPresent(x, Slot(key.0, key.1))
  {
  }

  /** A class without one is attended exactly if it is the only one of the timetable that day and a
      record of the day says so; a day known from records alone, exactly if one of them says so. */
  lemma RecordDecides(x: Evidence, id: int, d: Day)
    ensures (id, d) !in SubmissionMap(x.submissions) ==>
              (IsPresent(x, Slot(id, d))
               <==> && (exists r :: r in x.records && r.date == d && r.status == Present)
                    && Slot(id, d) in StartedSlots(x)
                    && forall other :: Slot(other, d) in StartedSlots(x) ==> other == id)
    ensures IsPresent(x, DayRecord(d)) <==> exists r :: r in x.records && r.date == d && r.status == Present
  {
    assert AnyPresent(x.records, d) <==> exists r :: r in x.records && r.date == d && r.status == Present by {
      if r :| r in x.records && r.date == d && r.status == Present {
        assert r == Record(d, Present);
      }
    }
    forall p | p in StartedSlots(x)
      ensures p.Slot?
    {
      StartedSlotsMembers(x, p);
    }
  }

  lemma NearestQuotient(n: nat, d: nat)
    requires d > 0
    ensures var q, r := n / d, n % d;
            q * d + r == n && r < d && (q + 1) * d == n - r + d
  {
    QuotientBounds(n, d);
  }

  /** The percentage is the hundredth nearest to the exact one, and the even one of two as near. */
  lemma RoundedPercentIsNearest(a: nat, d: nat)
    requires d > 0
    ensures var p := RoundedPercent(a, d);
            var error: int := p * d - 10000 * a;
            2 * error <= d && 2 * -error <= d && (2 * error == d || 2 * -error == d ==> p % 2 == 0)
  {
    NearestQuotient(10000 * a, d);
  }

  // ----- the order of rows -----

  ghost predicate OneRowPerSlot(rows: seq<Submission>) {
    forall i, j :: 0 <= i < j < |rows| ==>
      (rows[i].scheduleId, rows[i].classDate) != (rows[j].scheduleId, rows[j].classDate)
  }

  lemma {:induction false} SubmissionMapMembers(rows: seq<Submission>, key: SlotKey, status: SubmissionStatus)
    requires OneRowPerSlot(rows)
    ensures (key in SubmissionMap(rows) && SubmissionMap(rows)[key] == status)
            <==> Submission(key.0, key.1, status) in rows
  {
    if rows != [] {
      var n := |rows| - 1;
      SubmissionMapMembers(rows[..n], key, status);
      assert rows == rows[..n] + [rows[n]];
      assert forall i :: 0 <= i < n ==> rows[..n][i] == rows[i];
    }
  }

  ghost predicate Permuted<T>(a: seq<T>, b: seq<T>) {
    multiset(a) == multiset(b)
  }

  lemma PermutedMembers<T>(a: seq<T>, b: seq<T>)
    requires Permuted(a, b)
    ensures forall e :: e in a <==> e in b
  {
    forall e: T
      ensures e in a <==> e in b
    {
      assert e in a <==> e in multiset(a);
      assert e in b <==> e in multiset(b);
    }
  }

  lemma SubmissionMapPermuted(a: seq<Submission>, b: seq<Submission>)
    requires OneRowPerSlot(a) && OneRowPerSlot(b) && Permuted(a, b)
    ensures SubmissionMap(a) == SubmissionMap(b)
  {
    PermutedMembers(a, b);
    forall k: SlotKey
      ensures k in SubmissionMap(a) <==> k in SubmissionMap(b)
      ensures k in SubmissionMap(a) ==> SubmissionMap(a)[k] == SubmissionMap(b)[k]
    {
      if k in SubmissionMap(a) {
        SubmissionMapMembers(a, k, SubmissionMap(a)[k]);
        SubmissionMapMembers(b, k, SubmissionMap(a)[k]);
      } else if k in SubmissionMap(b) {
        SubmissionMapMembers(a, k, SubmissionMap(b)[k]);
        SubmissionMapMembers(b, k, SubmissionMap(b)[k]);
      }
    }
  }

  ghost predicate OneRecordPerDay(rows: seq<Record>) {
    forall i, j :: 0 <= i < j < |rows| ==> rows[i].date != rows[j].date
  }

  ghost function PresentSet(rows: seq<Record>): set<Record> {
    set r | r in rows && r.status == Present
  }

  lemma {:induction false} PresentRowsCounted(rows: seq<Record>)
    requires OneRecordPerDay(rows)
    ensures PresentRows(rows) == |PresentSet(rows)|
  {
    if rows != [] {
      var n := |rows| - 1;
      PresentRowsCounted(rows[..n]);
      assert rows == rows[..n] + [rows[n]];
      assert forall i :: 0 <= i < n ==> rows[..n][i] == rows[i];
      assert rows[n] !in rows[..n];
      assert PresentSet(rows) == PresentSet(rows[..n]) + (if rows[n].status == Present then {rows[n]} else {});
    }
  }

  /** The same rows in another order. */
  ghost predicate Reordered(x: Evidence, y: Evidence) {
    && x.from == y.from && x.now == y.now
    && Permuted(x.schedules, y.schedules)
    && Permuted(x.submissions, y.submissions)
    && Permuted(x.records, y.records)
  }

  /** The unique constraints of the two attendance tables. */
  ghost predicate UniqueRows(x: Evidence) {
    OneRowPerSlot(x.submissions) && OneRecordPerDay(x.records)
  }

  lemma StartedSlotsReordered(x: Evidence, y: Evidence)
    requires Reordered(x, y)
    ensures StartedSlots(x) == StartedSlots(y)
  {
    PermutedMembers(x.schedules, y.schedules);
    forall o: Occurrence
      ensures o in StartedSlots(x) <==> o in StartedSlots(y)
    {
      StartedSlotsMembers(x, o);
      StartedSlotsMembers(y, o);
      StartedBySchedule(x, o);
      StartedBySchedule(y, o);
    }
  }

  lemma StartedBySchedule(x: Evidence, o: Occurrence)
    ensures IsStarted(x, o) <==> o.Slot? && exists s :: s in x.schedules && s.id == o.scheduleId
                                                        && o.day in DeliveredDays(s, x.from, x.now)
  {
    if o.Slot? && exists s :: s in x.schedules && s.id == o.scheduleId && o.day in DeliveredDays(s, x.from, x.now) {
      var s :| s in x.schedules && s.id == o.scheduleId && o.day in DeliveredDays(s, x.from, x.now);
      var i :| 0 <= i < |x.schedules| && x.schedules[i] == s;
      assert x.schedules[i].id == o.scheduleId;
    }
  }

  lemma NotYetReordered(x: Evidence, y: Evidence, key: SlotKey)
    requires Reordered(x, y)
    ensures NotYet(x, key) ==> NotYet(y, key)
  {
    PermutedMembers(x.schedules, y.schedules);
    if NotYet(x, key) {
      var i :| 0 <= i < |x.schedules| && x.schedules[i].id == key.0 && !Started(x.schedules[i], key.1, x.now);
      assert x.schedules[i] in y.schedules;
      var j :| 0 <= j < |y.schedules| && y.schedules[j] == x.schedules[i];
      assert y.schedules[j].id == key.0 && !Started(y.schedules[j], key.1, y.now);
    }
  }

  lemma RecordsReordered(x: Evidence, y: Evidence)
    requires Reordered(x, y) && UniqueRows(x) && UniqueRows(y)
    ensures RecordDates(x.records) == RecordDates(y.records)
    ensures PresentRows(x.records) == PresentRows(y.records)
    ensures forall d :: AnyPresent(x.records, d) <==> AnyPresent(y.records, d)
  {
    PermutedMembers(x.records, y.records);
    PresentRowsCounted(x.records);
    PresentRowsCounted(y.records);
    assert PresentSet(x.records) == PresentSet(y.records);
  }

  lemma ExtraSlotsReordered(x: Evidence, y: Evidence)
    requires Reordered(x, y) && UniqueRows(x) && UniqueRows(y)
    ensures ExtraSlots(x) == ExtraSlots(y)
  {
    StartedSlotsReordered(x, y);
    SubmissionMapPermuted(x.submissions, y.submissions);
    forall k: SlotKey
      ensures NotYet(x, k) <==> NotYet(y, k)
    {
      NotYetReordered(x, y, k);
      NotYetReordered(y, x, k);
    }
  }

  lemma MarksReordered(x: Evidence, y: Evidence)
    requires Reordered(x, y) && UniqueRows(x) && UniqueRows(y)
    ensures MarksOver(x, Occurrences(x)) == MarksOver(y, Occurrences(y))
  {
    StartedSlotsReordered(x, y);
    ExtraSlotsReordered(x, y);
    SubmissionMapPermuted(x.submissions, y.submissions);
    RecordsReordered(x, y);
    assert Occurrences(x) == Occurrences(y);
    forall o: Occurrence
      ensures IsPresent(x, o) <==> IsPresent(y, o)
    {
      assert SoleStarted(x, o) <==> SoleStarted(y, o);
    }
  }

  /** The order in which the queries return their rows does not matter. */
  lemma RowOrderIrrelevant(x: Evidence, y: Evidence)
    requires Reordered(x, y) && UniqueRows(x) && UniqueRows(y)
    ensures SnapshotOf(x) == SnapshotOf(y)
  {
    hide LatestOf, RoundedPercent, MarksOver, Occurrences, TrailingAbsentDays, AttendedDays, DaysOf, Attended,
         SubmissionMap, RecordDates, PresentRows;
    MarksReordered(x, y);
    SubmissionMapPermuted(x.submissions, y.submissions);
    RecordsReordered(x, y);
  }

  // ----- severity -----

  datatype RiskLevel = Watch | High | Critical

  /** Raw environment values, before the clamps that order them. */
  datatype Settings = Settings(watch: real, high: real, critical: real,
                               watchAbsences: int, highAbsences: int, criticalAbsences: int, minDelivered: int)

  function MaxReal(a: real, b: real): real {
    if a < b then b else a
  }

  function MinReal(a: real, b: real): real {
    if a < b then a else b
  }

  function WatchThreshold(c: Settings): real {
    MaxReal(1.0, MinReal(100.0, c.watch))
  }

  function HighThreshold(c: Settings): real {
    MaxReal(1.0, MinReal(WatchThreshold(c), c.high))
  }

  function CriticalThreshold(c: Settings): real {
    MaxReal(1.0, MinReal(HighThreshold(c), c.critical))
  }

  function WatchAbsences(c: Settings): int {
    Max(1, c.watchAbsences)
  }

  function HighAbsences(c: Settings): int {
    Max(WatchAbsences(c), c.highAbsences)
  }

  function CriticalAbsences(c: Settings): int {
    Max(HighAbsences(c), c.criticalAbsences)
  }

  function MinDelivered(c: Settings): int {
    Max(1, c.minDelivered)
  }

  function Percent(s: Snapshot): real {
    s.hundredths as real / 100.0
  }

  function RiskOf(c: Settings, s: Snapshot): Option<RiskLevel> {
    if s.delivered < MinDelivered(c) && s.consecutive < WatchAbsences(c) then None
    else if Percent(s) <= CriticalThreshold(c) || s.consecutive >= CriticalAbsences(c) then Some(Critical)
    else if Percent(s) <= HighThreshold(c) || s.consecutive >= HighAbsences(c) then Some(High)
    else if Percent(s) < WatchThreshold(c) || s.consecutive >= WatchAbsences(c) then Some(Watch)
    else None
  }

  function Severity(r: Option<RiskLevel>): nat {
    match r
    case None => 0
    case Some(Watch) => 1
    case Some(High) => 2
    case Some(Critical) => 3
  }

  /** Whatever the environment says, the clamps keep the levels nested: evidence for a level is
      evidence for every milder one, except that a percentage equal to the watch threshold counts
      only from the high level on. */
  lemma LevelsNested(c: Settings, s: Snapshot)
    ensures 1.0 <= CriticalThreshold(c) <= HighThreshold(c) <= WatchThreshold(c) <= 100.0
    ensures 1 <= WatchAbsences(c) <= HighAbsences(c) <= CriticalAbsences(c)
    ensures RiskOf(c, s) == Some(Critical) ==>
              Percent(s) <= HighThreshold(c) || s.consecutive >= HighAbsences(c)
    ensures Severity(RiskOf(c, s)) >= 2 ==>
              Percent(s) <= WatchThreshold(c) || s.consecutive >= WatchAbsences(c)
    ensures RiskOf(c, s).None? <==>
              || (s.delivered < MinDelivered(c) && s.consecutive < WatchAbsences(c))
              || (Percent(s) >= WatchThreshold(c) && Percent(s) > HighThreshold(c) && s.consecutive < WatchAbsences(c))
  {
  }

  /** A percentage setting is kept when it lies between 1 and the level above it (100 for the mildest
      level), and otherwise moved to the nearer end; an absence setting is never below the milder one. */
  lemma SettingsAreHonoured(c: Settings)
    ensures Nearest(WatchThreshold(c), c.watch, 1.0, 100.0)
    ensures Nearest(HighThreshold(c), c.high, 1.0, WatchThreshold(c))
    ensures Nearest(CriticalThreshold(c), c.critical, 1.0, HighThreshold(c))
    ensures WatchAbsences(c) == if c.watchAbsences >= 1 then c.watchAbsences else 1
    ensures HighAbsences(c) == if c.highAbsences >= WatchAbsences(c) then c.highAbsences else WatchAbsences(c)
    ensures CriticalAbsences(c) == if c.criticalAbsences >= HighAbsences(c) then c.criticalAbsences else HighAbsences(c)
    ensures MinDelivered(c) == if c.minDelivered >= 1 then c.minDelivered else 1
  {
  }

  predicate Nearest(x: real, setting: real, low: real, high: real) {
    && low <= x <= high
    && (low <= setting <= high ==> x == setting) && (setting < low ==> x == low) && (setting > high ==> x == high)
  }

  /** Enough has been seen to judge: enough classes, or already a run of absences. */
  predicate Judged(c: Settings, s: Snapshot) {
    s.delivered >= MinDelivered(c) || s.consecutive >= WatchAbsences(c)
  }

  /** Each severity is reached exactly by its own threshold: the upper two by a percentage at most the
      threshold or a long enough absence run, the mildest by a percentage below its threshold, a long
      enough run, or the conditions of an upper one. */
  lemma SeverityIsExact(c: Settings, s: Snapshot)
    ensures Severity(RiskOf(c, s)) >= 3
            <==> Judged(c, s) && (Percent(s) <= CriticalThreshold(c) || s.consecutive >= CriticalAbsences(c))
    ensures Severity(RiskOf(c, s)) >= 2
            <==> Judged(c, s) && (Percent(s) <= HighThreshold(c) || s.consecutive >= HighAbsences(c))
    ensures Severity(RiskOf(c, s)) >= 1
            <==> Judged(c, s) && (Percent(s) < WatchThreshold(c) || Percent(s) <= HighThreshold(c)
                                  || s.consecutive >= WatchAbsences(c))
    ensures RiskOf(c, s) == Some(Critical) <==> Severity(RiskOf(c, s)) == 3
    ensures RiskOf(c, s) == Some(High) <==> Severity(RiskOf(c, s)) == 2
    ensures RiskOf(c, s) == Some(Watch) <==> Severity(RiskOf(c, s)) == 1
  {
  }

  /** With the usual settings 60 percent is high, not critical. */
  lemma SixtyPercentIsHigh()
    ensures RiskOf(Settings(75.0, 65.0, 50.0, 2, 3, 4, 2), Snapshot(6000, 6, 4, 10, 0, None)) == Some(High)
  {
  }

  /** A better percentage and a shorter run over the same classes never raise the severity. */
  lemma SeverityMonotone(c: Settings, s: Snapshot, t: Snapshot)
    requires s.delivered == t.delivered
    requires s.hundredths <= t.hundredths && t.consecutive <= s.consecutive
    ensures Severity(RiskOf(c, t)) <= Severity(RiskOf(c, s))
  {
    assert Percent(s) <= Percent(t);
  }

  // ----- approving one submission -----

  function Approve(x: Evidence, i: nat): Evidence
    requires i < |x.submissions|
  {
    x.(submissions := x.submissions[i := x.submissions[i].(status := Approved)])
  }

  /** The map after the approval has the same keys, and no status but an approved one is new. */
  ghost predicate BetterMap(m: map<SlotKey, SubmissionStatus>, n: map<SlotKey, SubmissionStatus>) {
    m.Keys == n.Keys && forall k :: k in m ==> n[k] == m[k] || n[k] == Approved
  }

  lemma {:induction false} ApprovedMap(rows: seq<Submission>, i: nat)
    requires i < |rows|
    ensures BetterMap(SubmissionMap(rows), SubmissionMap(rows[i := rows[i].(status := Approved)]))
  {
    var n := |rows| - 1;
    var after := rows[i := rows[i].(status := Approved)];
    if i == n {
      assert after[..n] == rows[..n];
    } else {
      ApprovedMap(rows[..n], i);
      assert after[..n] == rows[..n][i := rows[i].(status := Approved)];
    }
  }

  /** The same classes, each at least as attended as before. */
  ghost predicate Improves(m: Marks, n: Marks) {
    m.Keys == n.Keys && forall o :: o in m && m[o] ==> n[o]
  }

  lemma ApprovalKeepsOccurrences(x: Evidence, i: nat)
    requires i < |x.submissions|
    ensures Occurrences(Approve(x, i)) == Occurrences(x)
    ensures StartedSlots(Approve(x, i)) == StartedSlots(x)
  {
    var y := Approve(x, i);
    ApprovedMap(x.submissions, i);
    assert StartedSlots(y) == StartedSlots(x);
    forall k: SlotKey
      ensures NotYet(y, k) <==> NotYet(x, k)
    {
    }
    assert ExtraSlots(y) == ExtraSlots(x);
    assert SlotDays(y) == SlotDays(x);
    assert SubmissionDays(y) == SubmissionDays(x);
  }

  lemma ApprovalImproves(x: Evidence, i: nat)
    requires i < |x.submissions|
    ensures Improves(MarksOver(x, Occurrences(x)), MarksOver(Approve(x, i), Occurrences(Approve(x, i))))
  {
    var y := Approve(x, i);
    ApprovalKeepsOccurrences(x, i);
    ApprovedMap(x.submissions, i);
    forall o | o in Occurrences(x) && IsPresent(x, o)
      ensures IsPresent(y, o)
    {
      assert SoleStarted(y, o) <==> SoleStarted(x, o);
    }
  }

  lemma ImprovementCounts(m: Marks, n: Marks)
    requires Improves(m, n)
    ensures |m| == |n|
    ensures |Attended(m)| <= |Attended(n)|
    ensures |TrailingAbsentDays(n)| <= |TrailingAbsentDays(m)|
  {
    assert |m.Keys| == |n.Keys|;
    SubsetSize(Attended(m), Attended(n));
    ImprovementDays(m, n);
    SubsetSize(TrailingAbsentDays(n), TrailingAbsentDays(m));
  }

  lemma ImprovementDays(m: Marks, n: Marks)
    requires Improves(m, n)
    ensures TrailingAbsentDays(n) <= TrailingAbsentDays(m)
  {
    forall d | d in AttendedDays(m)
      ensures d in AttendedDays(n)
    {
      var o :| o in m && m[o] && o.day == d;
      assert o in n && n[o];
    }
    forall d | d in DaysOf(n)
      ensures d in DaysOf(m)
    {
      var o :| o in n && o.day == d;
      assert o in m;
    }
  }

  /** Approving one submission, with everything else fixed, never raises the severity. */
  lemma ApprovalNeverRaisesSeverity(c: Settings, x: Evidence, i: nat)
    requires i < |x.submissions|
    ensures var s, t := SnapshotOf(x), SnapshotOf(Approve(x, i));
            && s.delivered == t.delivered && s.present <= t.present && t.consecutive <= s.consecutive
            && Severity(RiskOf(c, t)) <= Severity(RiskOf(c, s))
  {
    hide LatestOf, RoundedPercent, MarksOver, Occurrences, TrailingAbsentDays, AttendedDays, DaysOf, Attended,
         SubmissionMap, RecordDates,
         PresentRows, FallbackDelivered, RiskOf;
    var s, t := SnapshotOf(x), SnapshotOf(Approve(x, i));
    ApprovalImproves(x, i);
    ImprovementCounts(MarksOver(x, Occurrences(x)), MarksOver(Approve(x, i), Occurrences(Approve(x, i))));
    FallbackUnmoved(x, i);
    if s.delivered > 0 {
      RoundedPercentMonotone(s.present, t.present, s.delivered);
    }
    SeverityMonotone(c, s, t);
  }

  lemma FallbackUnmoved(x: Evidence, i: nat)
    requires i < |x.submissions|
    ensures FallbackDelivered(Approve(x, i)) == FallbackDelivered(x)
  {
    ApprovedMap(x.submissions, i);
    assert |SubmissionMap(x.submissions).Keys| == |SubmissionMap(Approve(x, i).submissions).Keys|;
  }
}
