/** The attendance snapshot of one student in one course: schedule slots, submissions and
    records are merged so that every class is counted once. */
module AttendanceSnapshot {
  import opened AttendanceCalendar
  import opened Basics

  datatype SubmissionStatus = Verified | PendingReview | Approved | Rejected

  datatype RecordStatus = Present | Absent

  datatype Submission = Submission(scheduleId: int, classDate: Day, status: SubmissionStatus)

  datatype Record = Record(date: Day, status: RecordStatus)

  type SlotKey = (int, Day)

  /** What the three queries return for one student and one course, with the clock reading. */
  datatype Evidence = Evidence(schedules: seq<Schedule>, submissions: seq<Submission>, records: seq<Record>,
                               from: Day, now: Moment)

  /** One class that may be counted: a slot of the timetable (possibly one that is no longer
      active), or a day known from a record alone. */
  datatype Occurrence = Slot(scheduleId: int, day: Day) | DayRecord(day: Day)

  /** Percentages are kept in hundredths of a percent, as the source rounds to two decimals. */
  datatype Snapshot = Snapshot(hundredths: nat, present: nat, absent: nat, delivered: nat,
                               consecutive: nat, lastAbsent: Option<Day>)

  /** Schedule ids are a primary key and the queries restrict dates to the period so far. */
  ghost predicate Fetched(x: Evidence) {
    && (forall i, j :: 0 <= i < j < |x.schedules| ==> x.schedules[i].id != x.schedules[j].id)
    && (forall r :: r in x.submissions ==> x.from <= r.classDate <= x.now.day)
    && (forall r :: r in x.records ==> x.from <= r.date <= x.now.day)
  }

  predicate Counts(status: SubmissionStatus) {
    status == Verified || status == Approved
  }

  // ----- the reference: which classes count, and which of them were attended -----

  /** Later rows for the same slot win, as in the dictionary the source builds. */
  function SubmissionMap(rows: seq<Submission>): map<SlotKey, SubmissionStatus> {
    if rows == [] then map[]
    else
      var r := rows[|rows| - 1];
      SubmissionMap(rows[..|rows| - 1])[(r.scheduleId, r.classDate) := r.status]
  }

  ghost predicate IsStarted(x: Evidence, o: Occurrence) {
    o.Slot? && exists i :: 0 <= i < |x.schedules| && x.schedules[i].id == o.scheduleId
                           && o.day in DeliveredDays(x.schedules[i], x.from, x.now)
  }

  ghost function StartedOf(s: Schedule, from: Day, now: Moment): set<Occurrence> {
    set d | d in DeliveredDays(s, from, now) :: Slot(s.id, d)
  }

  ghost function StartedSlots(x: Evidence): set<Occurrence> {
    set i, o | 0 <= i < |x.schedules| && o in StartedOf(x.schedules[i], x.from, x.now) :: o
  }

  /** An active slot whose class has not begun yet. */
  ghost predicate NotYet(x: Evidence, key: SlotKey) {
    exists i :: 0 <= i < |x.schedules| && x.schedules[i].id == key.0 && !Started(x.schedules[i], key.1, x.now)
  }

  /** Submissions outside the started slots: retired schedules and off-timetable days. */
  ghost function ExtraSlots(x: Evidence): set<Occurrence> {
    set k | k in SubmissionMap(x.submissions).Keys && Slot(k.0, k.1) !in StartedSlots(x) && !NotYet(x, k)
      :: Slot(k.0, k.1)
  }

  ghost function SlotDays(x: Evidence): set<Day> {
    set o | o in StartedSlots(x) + ExtraSlots(x) :: o.day
  }

  ghost function SubmissionDays(x: Evidence): set<Day> {
    DaysOfKeys(SubmissionMap(x.submissions).Keys)
  }

  ghost function RecordDates(rows: seq<Record>): set<Day> {
    set r | r in rows :: r.date
  }

  /** Days known only from a record: no counted slot and no submission of any kind. */
  ghost function RecordOnly(x: Evidence): set<Occurrence> {
    set d | d in RecordDates(x.records) - SlotDays(x) - SubmissionDays(x) :: DayRecord(d)
  }

  ghost function Occurrences(x: Evidence): set<Occurrence> {
    StartedSlots(x) + ExtraSlots(x) + RecordOnly(x)
  }

  predicate AnyPresent(rows: seq<Record>, d: Day) {
    Record(d, Present) in rows
  }

  ghost predicate SoleStarted(x: Evidence, o: Occurrence) {
    o in StartedSlots(x) && forall p :: p in StartedSlots(x) && p.day == o.day ==> p == o
  }

  /** A submission decides its slot; a day record decides a day on its own and the only started
      slot of its day. */
  ghost predicate IsPresent(x: Evidence, o: Occurrence) {
    match o
    case DayRecord(d) => AnyPresent(x.records, d)
    case Slot(id, d) =>
      if (id, d) in SubmissionMap(x.submissions) then Counts(SubmissionMap(x.submissions)[(id, d)])
      else SoleStarted(x, o) && AnyPresent(x.records, d)
  }

  // ----- counting a set of marked classes -----

  type Marks = map<Occurrence, bool>

  ghost function MarksOver(x: Evidence, done: set<Occurrence>): Marks {
    map o | o in done :: IsPresent(x, o)
  }

  ghost function Attended(m: Marks): set<Occurrence> {
    set o | o in m && m[o]
  }

  ghost function Missed(m: Marks): set<Occurrence> {
    set o | o in m && !m[o]
  }

  ghost function DaysOf(m: Marks): set<Day> {
    set o | o in m :: o.day
  }

  ghost function AttendedDays(m: Marks): set<Day> {
    set o | o in m && m[o] :: o.day
  }

  /** The days after the last attended one. */
  ghost function TrailingAbsentDays(m: Marks): set<Day> {
    set d | d in DaysOf(m) && forall e :: e in AttendedDays(m) ==> e < d
  }

  ghost predicate IsLatest(d: Option<Day>, days: set<Day>) {
    match d
    case None => days == {}
    case Some(v) => v in days && forall e :: e in days ==> e <= v
  }

  /** Half-even rounding of 100 * attended / delivered to hundredths. */
  function RoundedPercent(attended: nat, delivered: nat): nat
    requires delivered > 0
  {
    var q := 10000 * attended / delivered;
    var r := 10000 * attended % delivered;
    if 2 * r < delivered || (2 * r == delivered && q % 2 == 0) then q else q + 1
  }

  function PresentRows(rows: seq<Record>): nat {
    if rows == [] then 0
    else PresentRows(rows[..|rows| - 1]) + (if rows[|rows| - 1].status == Present then 1 else 0)
  }

  /** The counts the source falls back on when the merge found no class at all. */
  ghost function FallbackDelivered(x: Evidence): nat {
    Max(|RecordDates(x.records)|, |SubmissionMap(x.submissions)|)
  }

  /** What a snapshot has to say about the evidence. */
  ghost predicate IsSnapshotOf(x: Evidence, s: Snapshot) {
    var m := MarksOver(x, Occurrences(x));
    && s.delivered == (if |m| == 0 then FallbackDelivered(x) else |m|)
    && s.present == (if |m| == 0 then Min(s.delivered, PresentRows(x.records)) else |Attended(m)|)
    && s.absent == s.delivered - s.present
    && s.hundredths == (if s.delivered == 0 then 0 else RoundedPercent(s.present, s.delivered))
    && s.consecutive == |TrailingAbsentDays(m)|
    && IsLatest(s.lastAbsent, DaysOf(m) - AttendedDays(m))
  }

  lemma AttendedAtMost(m: Marks)
    ensures |Attended(m)| <= |m|
  {
    assert Attended(m) <= m.Keys;
    SubsetSize(Attended(m), m.Keys);
  }

  ghost function LatestOf(days: set<Day>): Option<Day> {
    if days == {} then None
    else
      LatestExists(days);
      var d :| d in days && forall e :: e in days ==> e <= d;
      Some(d)
  }

  /** The snapshot the evidence determines. */
  ghost function SnapshotOf(x: Evidence): Snapshot {
    var m := MarksOver(x, Occurrences(x));
    AttendedAtMost(m);
    var delivered := if |m| == 0 then FallbackDelivered(x) else |m|;
    var present := if |m| == 0 then Min(delivered, PresentRows(x.records)) else |Attended(m)|;
    Snapshot(if delivered == 0 then 0 else RoundedPercent(present, delivered), present, delivered - present, delivered,
             |TrailingAbsentDays(m)|, LatestOf(DaysOf(m) - AttendedDays(m)))
  }

  lemma LatestIs(d: Option<Day>, days: set<Day>)
    ensures IsLatest(d, days) <==> d == LatestOf(days)
  {
  }

  /** The evidence determines the snapshot: whatever order the three passes and the dictionaries
      take, there is one answer. */
  lemma SnapshotUnique(x: Evidence, s: Snapshot)
    ensures IsSnapshotOf(x, s) <==> s == SnapshotOf(x)
  {
    hide MarksOver, Occurrences, FallbackDelivered, TrailingAbsentDays, DaysOf, AttendedDays, Attended, PresentRows,
         LatestOf, IsLatest, RoundedPercent;
    var m := MarksOver(x, Occurrences(x));
    LatestIs(s.lastAbsent, DaysOf(m) - AttendedDays(m));
  }

  // ----- the imperative merge -----

  /** The counters and dictionaries the merge updates. */
  datatype Tally = Tally(delivered: nat, attended: nat, seen: set<Occurrence>, dayStatus: map<Day, bool>)

  const EMPTY: Tally := Tally(0, 0, {}, map[])

  function CountOne(t: Tally, o: Occurrence, present: bool): Tally {
    Tally(t.delivered + 1,
          if present then t.attended + 1 else t.attended,
          t.seen + {o},
          if present then t.dayStatus[o.day := true]
          else if o.day in t.dayStatus then t.dayStatus else t.dayStatus[o.day := false])
  }

  ghost predicate CountersAgree(t: Tally, m: Marks) {
    t.delivered == |m| && t.attended == |Attended(m)| && t.seen == m.Keys
  }

  ghost predicate DaysAgree(dayStatus: map<Day, bool>, m: Marks) {
    && dayStatus.Keys == DaysOf(m)
    && forall d :: d in dayStatus ==> (dayStatus[d] <==> d in AttendedDays(m))
  }

  ghost predicate Agrees(t: Tally, m: Marks) {
    CountersAgree(t, m) && DaysAgree(t.dayStatus, m)
  }

  lemma AttendedGrow(m: Marks, o: Occurrence, p: bool)
    requires o !in m
    ensures Attended(m[o := p]) == if p then Attended(m) + {o} else Attended(m)
  {
  }

  lemma DaysGrow(m: Marks, o: Occurrence, p: bool)
    ensures DaysOf(m[o := p]) == DaysOf(m) + {o.day}
  {
    var n := m[o := p];
    assert o in n;
    forall d | d in DaysOf(m)
      ensures d in DaysOf(n)
    {
      var q :| q in m && q.day == d;
      assert q in n;
    }
  }

  lemma AttendedDaysGrow(m: Marks, o: Occurrence, p: bool)
    requires o !in m
    ensures AttendedDays(m[o := p]) == if p then AttendedDays(m) + {o.day} else AttendedDays(m)
  {
    var n := m[o := p];
    assert p ==> o in n && n[o];
    forall d | d in AttendedDays(m)
      ensures d in AttendedDays(n)
    {
      var q :| q in m && m[q] && q.day == d;
      assert q in n && n[q];
    }
    forall d | d in AttendedDays(n)
      ensures d in AttendedDays(m) || (p && d == o.day)
    {
      var q :| q in n && n[q] && q.day == d;
      assert q == o || (q in m && m[q]);
    }
  }

  /** Counting one more class keeps the counters in step with the marked classes. */
  lemma CountOneAgrees(x: Evidence, t: Tally, done: set<Occurrence>, o: Occurrence)
    requires Agrees(t, MarksOver(x, done)) && o !in done
    ensures Agrees(CountOne(t, o, IsPresent(x, o)), MarksOver(x, done + {o}))
  {
    var p := IsPresent(x, o);
    var m := MarksOver(x, done);
    assert MarksOver(x, done + {o}) == m[o := p];
    StepAgrees(t, m, o, p);
  }

  lemma StepAgrees(t: Tally, m: Marks, o: Occurrence, p: bool)
    requires Agrees(t, m) && o !in m
    ensures Agrees(CountOne(t, o, p), m[o := p])
  {
    StepCountersAgree(t, m, o, p);
    StepDaysAgree(t, m, o, p);
  }

  lemma StepCountersAgree(t: Tally, m: Marks, o: Occurrence, p: bool)
    requires CountersAgree(t, m) && o !in m
    ensures CountersAgree(CountOne(t, o, p), m[o := p])
  {
    AttendedGrow(m, o, p);
    assert o !in Attended(m);
    assert |Attended(m) + {o}| == |Attended(m)| + 1;
    assert m[o := p].Keys == m.Keys + {o};
  }

  lemma StepDaysAgree(t: Tally, m: Marks, o: Occurrence, p: bool)
    requires DaysAgree(t.dayStatus, m) && o !in m
    ensures DaysAgree(CountOne(t, o, p).dayStatus, m[o := p])
  {
    DaysGrow(m, o, p);
    AttendedDaysGrow(m, o, p);
    var before, after := t.dayStatus, CountOne(t, o, p).dayStatus;
    forall d | d in after
      ensures after[d] <==> d in AttendedDays(m[o := p])
    {
      assert d == o.day || (d in before && after[d] == before[d]);
    }
  }

  /** The started schedules of each day, as the stepping loop collects them. */
  type Agenda = map<Day, seq<int>>

  ghost predicate AgendaListed(x: Evidence, upTo: nat, d: Day, id: int)
    requires upTo <= |x.schedules|
  {
    exists i :: 0 <= i < upTo && x.schedules[i].id == id && d in DeliveredDays(x.schedules[i], x.from, x.now)
  }

  ghost predicate Distinct(ids: seq<int>) {
    forall i, j :: 0 <= i < j < |ids| ==> ids[i] != ids[j]
  }

  ghost predicate AgendaOf(x: Evidence, agenda: Agenda) {
    && (forall d :: d in agenda ==> agenda[d] != [] && Distinct(agenda[d]))
    && (forall d, id :: (d in agenda && id in agenda[d]) <==> Slot(id, d) in StartedSlots(x))
  }

  function AddToAgenda(agenda: Agenda, d: Day, id: int): Agenda {
    agenda[d := (if d in agenda then agenda[d] else []) + [id]]
  }

  function Listed(agenda: Agenda, d: Day): seq<int> {
    if d in agenda then agenda[d] else []
  }

  /** The agenda lists the schedule once more on each of the days, and is otherwise unchanged. */
  ghost predicate Collected(before: Agenda, agenda: Agenda, id: int, days: set<Day>) {
    && (forall d :: Listed(agenda, d) == Listed(before, d) + (if d in days then [id] else []))
    && (forall d :: d in agenda <==> d in before || d in days)
  }

  lemma CollectMore(before: Agenda, agenda: Agenda, id: int, days: set<Day>, day: Day)
    requires Collected(before, agenda, id, days) && day !in days
    ensures Collected(before, AddToAgenda(agenda, day, id), id, days + {day})
  {
    var after := AddToAgenda(agenda, day, id);
    forall d
      ensures Listed(after, d) == Listed(before, d) + (if d in days + {day} then [id] else [])
    {
      assert d != day ==> Listed(after, d) == Listed(agenda, d);
      assert Listed(after, day) == Listed(agenda, day) + [id];
    }
  }

  ghost function StartedAmong(s: Schedule, days: set<Day>, now: Moment): set<Day> {
    set d | d in days && Started(s, d, now)
  }

  lemma WeeklyAdvances(s: Schedule, visited: set<Day>, first: Day, last: Day, now: Moment, weekly: set<Day>)
    requires first <= last
    requires weekly == visited + Weekly(first, last) && visited !! Weekly(first, last)
    ensures weekly == visited + {first} + Weekly(first + 7, last) && visited + {first} !! Weekly(first + 7, last)
    ensures first !in visited
    ensures StartedAmong(s, visited + {first}, now)
            == StartedAmong(s, visited, now) + (if Started(s, first, now) then {first} else {})
  {
    WeeklyMembers(first + 7, last);
  }

  lemma WeeklyStarted(s: Schedule, from: Day, now: Moment)
    ensures StartedAmong(s, Weekly(FirstClassDate(s, from), now.day), now) == DeliveredDays(s, from, now)
  {
    SteppedDays(s, from, now.day);
  }

  /** The seven-day stepping loop of one schedule. */
  method StepSchedule(s: Schedule, from: Day, now: Moment, before: Agenda) returns (agenda: Agenda)
    ensures Collected(before, agenda, s.id, DeliveredDays(s, from, now))
  {
    hide Collected, StartedAmong, Weekly, DeliveredDays;
    agenda := before;
    var classDate := FirstClassDate(s, from);
    ghost var weekly := Weekly(classDate, now.day);
    ghost var visited: set<Day> := {};
    NoneCollected(s, before, now);
    while classDate <= now.day
      invariant weekly == visited + Weekly(classDate, now.day) && visited !! Weekly(classDate, now.day)
      invariant Collected(before, agenda, s.id, StartedAmong(s, visited, now))
      decreases now.day - classDate
    {
      WeeklyAdvances(s, visited, classDate, now.day, now, weekly);
      if classDate < now.day || (classDate == now.day && s.start <= now.second) {
        StartedWithin(s, visited, now);
        CollectMore(before, agenda, s.id, StartedAmong(s, visited, now), classDate);
        agenda := AddToAgenda(agenda, classDate, s.id);
      } else {
        assert StartedAmong(s, visited, now) + {} == StartedAmong(s, visited, now);
      }
      visited := visited + {classDate};
      classDate := classDate + 7;
    }
    WeeklyMembers(classDate, now.day);
    assert visited == weekly;
    WeeklyStarted(s, from, now);
  }

  lemma StartedWithin(s: Schedule, days: set<Day>, now: Moment)
    ensures StartedAmong(s, days, now) <= days
  {
  }

  lemma NoneCollected(s: Schedule, agenda: Agenda, now: Moment)
    ensures Collected(agenda, agenda, s.id, StartedAmong(s, {}, now))
  {
  }

  lemma StartedSlotsMembers(x: Evidence, o: Occurrence)
    ensures o in StartedSlots(x) <==> IsStarted(x, o)
  {
    if IsStarted(x, o) {
      var i :| 0 <= i < |x.schedules| && x.schedules[i].id == o.scheduleId
               && o.day in DeliveredDays(x.schedules[i], x.from, x.now);
      assert o in StartedOf(x.schedules[i], x.from, x.now);
    }
  }

  ghost predicate AgendaUpTo(x: Evidence, k: nat, agenda: Agenda)
    requires k <= |x.schedules|
  {
    && (forall d :: d in agenda ==> agenda[d] != [] && Distinct(agenda[d]))
    && (forall d, id :: id in Listed(agenda, d) <==> AgendaListed(x, k, d, id))
  }

  lemma AgendaGrows(x: Evidence, k: nat, before: Agenda, agenda: Agenda)
    requires Fetched(x) && k < |x.schedules| && AgendaUpTo(x, k, before)
    requires Collected(before, agenda, x.schedules[k].id, DeliveredDays(x.schedules[k], x.from, x.now))
    ensures AgendaUpTo(x, k + 1, agenda)
  {
    hide DeliveredDays;
    var id, days := x.schedules[k].id, DeliveredDays(x.schedules[k], x.from, x.now);
    forall d | d in agenda
      ensures agenda[d] != [] && Distinct(agenda[d])
    {
      assert agenda[d] == Listed(agenda, d) == Listed(before, d) + (if d in days then [id] else []);
      assert id !in Listed(before, d);
      assert d in before ==> before[d] == Listed(before, d);
    }
    forall d, other
      ensures other in Listed(agenda, d) <==> AgendaListed(x, k + 1, d, other)
    {
      assert Listed(agenda, d) == Listed(before, d) + (if d in days then [id] else []);
      assert AgendaListed(x, k + 1, d, other) <==> AgendaListed(x, k, d, other) || (id == other && d in days);
    }
  }

  lemma AgendaComplete(x: Evidence, agenda: Agenda)
    requires AgendaUpTo(x, |x.schedules|, agenda)
    ensures AgendaOf(x, agenda)
  {
    forall d, id
      ensures (d in agenda && id in agenda[d]) <==> Slot(id, d) in StartedSlots(x)
    {
      StartedSlotsMembers(x, Slot(id, d));
      assert (d in agenda && id in agenda[d]) <==> id in Listed(agenda, d);
    }
  }

  method BuildAgenda(x: Evidence) returns (agenda: Agenda)
    requires Fetched(x)
    ensures AgendaOf(x, agenda)
  {
    hide Fetched, AgendaOf, Collected;
    agenda := map[];
    for k := 0 to |x.schedules|
      invariant AgendaUpTo(x, k, agenda)
    {
      hide AgendaUpTo;
      var grown := StepSchedule(x.schedules[k], x.from, x.now, agenda);
      AgendaGrows(x, k, agenda, grown);
      agenda := grown;
    }
    AgendaComplete(x, agenda);
  }

  /** The three dictionaries the source builds from its query rows. */
  datatype Lookups = Lookups(submissionByKey: map<SlotKey, SubmissionStatus>, submissionDays: set<Day>,
                             recordsByDate: map<Day, seq<RecordStatus>>, schedulesById: map<int, Schedule>)

  ghost predicate LookupsOf(x: Evidence, l: Lookups) {
    && l.submissionByKey == SubmissionMap(x.submissions)
    && l.submissionDays == SubmissionDays(x)
    && l.recordsByDate.Keys == RecordDates(x.records)
    && (forall d :: d in l.recordsByDate ==> (Present in l.recordsByDate[d] <==> AnyPresent(x.records, d)))
    && (forall i :: 0 <= i < |x.schedules| ==> x.schedules[i].id in l.schedulesById
                                               && l.schedulesById[x.schedules[i].id] == x.schedules[i])
    && (forall id :: id in l.schedulesById ==> exists i :: 0 <= i < |x.schedules| && x.schedules[i].id == id)
  }

  ghost function DaysOfKeys(keys: set<SlotKey>): set<Day> {
    set k | k in keys :: k.1
  }

  lemma DaysOfMoreKeys(keys: set<SlotKey>, key: SlotKey)
    ensures DaysOfKeys(keys + {key}) == DaysOfKeys(keys) + {key.1}
  {
    var more := keys + {key};
    assert key in more;
    forall d | d in DaysOfKeys(keys)
      ensures d in DaysOfKeys(more)
    {
      var q :| q in keys && q.1 == d;
      assert q in more;
    }
  }

  method IndexSubmissions(rows: seq<Submission>) returns (byKey: map<SlotKey, SubmissionStatus>, days: set<Day>)
    ensures byKey == SubmissionMap(rows)
    ensures days == DaysOfKeys(byKey.Keys)
  {
    byKey, days := map[], {};
    for k := 0 to |rows|
      invariant byKey == SubmissionMap(rows[..k])
      invariant days == DaysOfKeys(byKey.Keys)
    {
      assert rows[..k + 1][..k] == rows[..k];
      var key := (rows[k].scheduleId, rows[k].classDate);
      DaysOfMoreKeys(byKey.Keys, key);
      assert byKey[key := rows[k].status].Keys == byKey.Keys + {key};
      byKey := byKey[key := rows[k].status];
      days := days + {key.1};
    }
    assert rows[..|rows|] == rows;
  }

  method IndexRecords(rows: seq<Record>) returns (byDate: map<Day, seq<RecordStatus>>)
    ensures byDate.Keys == RecordDates(rows)
    ensures forall d :: d in byDate ==> (Present in byDate[d] <==> AnyPresent(rows, d))
  {
    byDate := map[];
    for k := 0 to |rows|
      invariant byDate.Keys == RecordDates(rows[..k])
      invariant forall d :: d in byDate ==> (Present in byDate[d] <==> AnyPresent(rows[..k], d))
    {
      assert rows[..k + 1] == rows[..k] + [rows[k]];
      var r := rows[k];
      assert RecordDates(rows[..k + 1]) == RecordDates(rows[..k]) + {r.date} by {
        assert r in rows[..k + 1];
        forall d | d in RecordDates(rows[..k])
          ensures d in RecordDates(rows[..k + 1])
        {
          var q :| q in rows[..k] && q.date == d;
          assert q in rows[..k + 1];
        }
      }
      assert r.date !in byDate ==> Record(r.date, Present) !in rows[..k];
      byDate := byDate[r.date := (if r.date in byDate then byDate[r.date] else []) + [r.status]];
    }
    assert rows[..|rows|] == rows;
  }

  method IndexSchedules(schedules: seq<Schedule>) returns (byId: map<int, Schedule>)
    requires forall i, j :: 0 <= i < j < |schedules| ==> schedules[i].id != schedules[j].id
    ensures forall i :: 0 <= i < |schedules| ==> schedules[i].id in byId && byId[schedules[i].id] == schedules[i]
    ensures forall id :: id in byId ==> exists i :: 0 <= i < |schedules| && schedules[i].id == id
  {
    byId := map[];
    for k := 0 to |schedules|
      invariant forall i :: 0 <= i < k ==> schedules[i].id in byId && byId[schedules[i].id] == schedules[i]
      invariant forall id :: id in byId ==> exists i :: 0 <= i < k && schedules[i].id == id
    {
      byId := byId[schedules[k].id := schedules[k]];
    }
  }

  method BuildLookups(x: Evidence) returns (l: Lookups)
    requires Fetched(x)
    ensures LookupsOf(x, l)
  {
    var byKey, days := IndexSubmissions(x.submissions);
    var byDate := IndexRecords(x.records);
    var byId := IndexSchedules(x.schedules);
    l := Lookups(byKey, days, byDate, byId);
  }

  ghost function StartedOutside(x: Evidence, days: set<Day>): set<Occurrence> {
    set o | o in StartedSlots(x) && o.day !in days
  }

  ghost function SlotsOn(ids: seq<int>, d: Day): set<Occurrence> {
    set id | id in ids :: Slot(id, d)
  }

  function PresentInSlot(l: Lookups, id: int, d: Day, slotsThatDay: nat): bool {
    if (id, d) in l.submissionByKey then Counts(l.submissionByKey[(id, d)])
    else slotsThatDay == 1 && d in l.recordsByDate && Present in l.recordsByDate[d]
  }

  lemma PresentInSlotIsPresence(x: Evidence, l: Lookups, agenda: Agenda, d: Day, id: int)
    requires LookupsOf(x, l) && AgendaOf(x, agenda) && d in agenda && id in agenda[d]
    ensures PresentInSlot(l, id, d, |agenda[d]|) <==> IsPresent(x, Slot(id, d))
  {
    var o := Slot(id, d);
    var ids := agenda[d];
    assert SoleStarted(x, o) <==> |ids| == 1 by {
      if |ids| == 1 {
        forall p | p in StartedSlots(x) && p.day == d
          ensures p == o
        {
          StartedSlotsMembers(x, p);
          assert p == Slot(p.scheduleId, d);
          assert p.scheduleId in ids;
        }
      } else {
        assert ids[0] in ids && ids[1] in ids;
        assert Slot(ids[0], d) in StartedSlots(x) && Slot(ids[1], d) in StartedSlots(x);
      }
    }
    RecordLookup(x, l, d);
  }

  lemma RecordLookup(x: Evidence, l: Lookups, d: Day)
    requires LookupsOf(x, l)
    ensures d in l.recordsByDate && Present in l.recordsByDate[d] <==> AnyPresent(x.records, d)
  {
    if AnyPresent(x.records, d) {
      assert Record(d, Present).date in RecordDates(x.records);
    }
  }

  lemma TallyFacts(x: Evidence, t: Tally, done: set<Occurrence>)
    requires Agrees(t, MarksOver(x, done))
    ensures t.seen == done
    ensures t.dayStatus.Keys == set o | o in done :: o.day
  {
    DaysWithinMarks(x, done);
  }

  lemma EmptyTally(x: Evidence)
    ensures Agrees(EMPTY, MarksOver(x, {}))
  {
  }

  /** First pass: one day of started slots. */
  method CountDay(x: Evidence, l: Lookups, agenda: Agenda, d: Day, before: Tally, ghost done: set<Occurrence>)
    returns (t: Tally)
    requires LookupsOf(x, l) && AgendaOf(x, agenda) && d in agenda
    requires Agrees(before, MarksOver(x, done))
    requires forall o :: o in done ==> o.day != d
    ensures Agrees(t, MarksOver(x, done + SlotsOn(agenda[d], d)))
  {
    hide CountersAgree, DaysAgree, MarksOver;
    t := before;
    var ids := agenda[d];
    assert done + SlotsOn(ids[..0], d) == done;
    for k := 0 to |ids|
      invariant Agrees(t, MarksOver(x, done + SlotsOn(ids[..k], d)))
    {
      var o := Slot(ids[k], d);
      ghost var reached := done + SlotsOn(ids[..k], d);
      assert ids[..k + 1] == ids[..k] + [ids[k]];
      TallyFacts(x, t, reached);
      if o !in t.seen {
        PresentInSlotIsPresence(x, l, agenda, d, ids[k]);
        CountOneAgrees(x, t, reached, o);
        t := CountOne(t, o, PresentInSlot(l, ids[k], d, |ids|));
      }
      assert reached + {o} == done + SlotsOn(ids[..k + 1], d);
      assert o in reached ==> reached + {o} == reached;
    }
    assert ids[..|ids|] == ids;
  }

  /** First pass, over the days in any order. */
  lemma AgendaCovers(x: Evidence, agenda: Agenda)
    requires AgendaOf(x, agenda)
    ensures StartedOutside(x, agenda.Keys) == {}
  {
    forall o | o in StartedSlots(x)
      ensures o.day in agenda
    {
      StartedSlotsMembers(x, o);
      assert o == Slot(o.scheduleId, o.day);
    }
  }

  method CountStartedSlots(x: Evidence, l: Lookups, agenda: Agenda) returns (t: Tally)
    requires LookupsOf(x, l) && AgendaOf(x, agenda)
    ensures Agrees(t, MarksOver(x, StartedSlots(x)))
  {
    hide *;
    t := EMPTY;
    EmptyTally(x);
    var days: set<Day> := agenda.Keys;
    AgendaCovers(x, agenda);
    while days != {}
      invariant days <= agenda.Keys
      invariant Agrees(t, MarksOver(x, StartedOutside(x, days)))
    {
      var d :| d in days;
      DayLeaves(x, agenda, days, d);
      t := CountDay(x, l, agenda, d, t, StartedOutside(x, days));
      days := days - {d};
    }
    NoneOutside(x);
  }

  lemma NoneOutside(x: Evidence)
    ensures StartedOutside(x, {}) == StartedSlots(x)
  {
  }

  lemma DayLeaves(x: Evidence, agenda: Agenda, days: set<Day>, d: Day)
    requires AgendaOf(x, agenda) && d in days && d in agenda
    ensures StartedOutside(x, days - {d}) == StartedOutside(x, days) + SlotsOn(agenda[d], d)
    ensures forall o :: o in StartedOutside(x, days) ==> o.day != d
  {
    forall o | o in StartedSlots(x) && o.day == d
      ensures o in SlotsOn(agenda[d], d)
    {
      StartedSlotsMembers(x, o);
      assert o == Slot(o.scheduleId, d);
      assert o.scheduleId in agenda[d];
    }
  }

  ghost function ExtraOutside(x: Evidence, keys: set<SlotKey>): set<Occurrence> {
    set o | o in ExtraSlots(x) && (o.scheduleId, o.day) !in keys
  }

  lemma ExtraMembers(x: Evidence, k: SlotKey)
    ensures Slot(k.0, k.1) in ExtraSlots(x)
            <==> k in SubmissionMap(x.submissions) && Slot(k.0, k.1) !in StartedSlots(x) && !NotYet(x, k)
  {
    if k in SubmissionMap(x.submissions) && Slot(k.0, k.1) !in StartedSlots(x) && !NotYet(x, k) {
      assert k in SubmissionMap(x.submissions).Keys;
    }
    if Slot(k.0, k.1) in ExtraSlots(x) {
      var q :| q in SubmissionMap(x.submissions).Keys && Slot(q.0, q.1) !in StartedSlots(x) && !NotYet(x, q)
               && Slot(q.0, q.1) == Slot(k.0, k.1);
      assert q == k;
    }
  }

  predicate ClassAhead(l: Lookups, key: SlotKey, now: Moment) {
    key.0 in l.schedulesById && !Started(l.schedulesById[key.0], key.1, now)
  }

  lemma ClassAheadIsNotYet(x: Evidence, l: Lookups, key: SlotKey)
    requires LookupsOf(x, l)
    ensures ClassAhead(l, key, x.now) <==> NotYet(x, key)
  {
    if key.0 in l.schedulesById {
      var i :| 0 <= i < |x.schedules| && x.schedules[i].id == key.0;
      assert l.schedulesById[key.0] == x.schedules[i];
    }
  }

  /** Second pass: submissions that no started slot accounts for. */
  method CountExtraSubmissions(x: Evidence, l: Lookups, before: Tally) returns (t: Tally)
    requires LookupsOf(x, l)
    requires Agrees(before, MarksOver(x, StartedSlots(x)))
    ensures Agrees(t, MarksOver(x, StartedSlots(x) + ExtraSlots(x)))
  {
    hide CountersAgree, DaysAgree, MarksOver;
    t := before;
    var keys := l.submissionByKey.Keys;
    ghost var base := StartedSlots(x);
    assert ExtraOutside(x, keys) == {};
    assert base + {} == base;
    while keys != {}
      invariant keys <= l.submissionByKey.Keys
      invariant Agrees(t, MarksOver(x, base + ExtraOutside(x, keys)))
    {
      var k :| k in keys;
      var o := Slot(k.0, k.1);
      ghost var reached := base + ExtraOutside(x, keys);
      TallyFacts(x, t, reached);
      ExtraMembers(x, k);
      ClassAheadIsNotYet(x, l, k);
      assert ExtraOutside(x, keys - {k}) == ExtraOutside(x, keys) + (if o in ExtraSlots(x) then {o} else {});
      if o !in t.seen && !ClassAhead(l, k, x.now) {
        CountOneAgrees(x, t, reached, o);
        t := CountOne(t, o, Counts(l.submissionByKey[k]));
        assert reached + {o} == base + ExtraOutside(x, keys - {k});
      } else {
        assert o !in ExtraSlots(x);
        assert reached == base + ExtraOutside(x, keys - {k});
      }
      keys := keys - {k};
    }
    assert ExtraOutside(x, {}) == ExtraSlots(x);
  }

  ghost function RecordOnlyOutside(x: Evidence, days: set<Day>): set<Occurrence> {
    set o | o in RecordOnly(x) && o.day !in days
  }

  lemma RecordOnlyMembers(x: Evidence, d: Day)
    ensures DayRecord(d) in RecordOnly(x) <==> d in RecordDates(x.records) - SlotDays(x) - SubmissionDays(x)
  {
  }

  lemma DaysWithinMarks(x: Evidence, done: set<Occurrence>)
    ensures DaysOf(MarksOver(x, done)) == set o | o in done :: o.day
  {
    forall o | o in done
      ensures o.day in DaysOf(MarksOver(x, done))
    {
      assert o in MarksOver(x, done);
    }
  }

  /** Third pass: days known only from a record. */
  method CountRecordDays(x: Evidence, l: Lookups, before: Tally) returns (t: Tally)
    requires LookupsOf(x, l)
    requires Agrees(before, MarksOver(x, StartedSlots(x) + ExtraSlots(x)))
    ensures Agrees(t, MarksOver(x, Occurrences(x)))
  {
    hide CountersAgree, DaysAgree, MarksOver;
    t := before;
    var days := l.recordsByDate.Keys;
    ghost var base := StartedSlots(x) + ExtraSlots(x);
    DaysWithinMarks(x, base);
    assert RecordOnlyOutside(x, days) == {};
    assert base + {} == base;
    while days != {}
      invariant days <= l.recordsByDate.Keys
      invariant Agrees(t, MarksOver(x, base + RecordOnlyOutside(x, days)))
    {
      var d :| d in days;
      var o := DayRecord(d);
      ghost var reached := base + RecordOnlyOutside(x, days);
      RecordOnlyMembers(x, d);
      TallyFacts(x, t, reached);
      DayKnown(x, days, d);
      assert RecordOnlyOutside(x, days - {d}) == RecordOnlyOutside(x, days) + (if o in RecordOnly(x) then {o} else {});
      if d !in t.dayStatus && d !in l.submissionDays {
        CountOneAgrees(x, t, reached, o);
        RecordLookup(x, l, d);
        t := CountOne(t, o, Present in l.recordsByDate[d]);
        assert reached + {o} == base + RecordOnlyOutside(x, days - {d});
      } else {
        assert o !in RecordOnly(x);
        assert reached == base + RecordOnlyOutside(x, days - {d});
      }
      days := days - {d};
    }
    assert RecordOnlyOutside(x, {}) == RecordOnly(x);
  }

  /** While day d is still to do, its status is set exactly when a counted slot falls on it. */
  lemma DayKnown(x: Evidence, days: set<Day>, d: Day)
    requires d in days
    ensures d in (set o | o in StartedSlots(x) + ExtraSlots(x) + RecordOnlyOutside(x, days) :: o.day)
            <==> d in SlotDays(x)
    ensures DayRecord(d) !in StartedSlots(x) + ExtraSlots(x) + RecordOnlyOutside(x, days)
  {
    StartedSlotsMembers(x, DayRecord(d));
    forall o | o in StartedSlots(x) + ExtraSlots(x)
      ensures o.day in set o | o in StartedSlots(x) + ExtraSlots(x) + RecordOnlyOutside(x, days) :: o.day
    {
      assert o in StartedSlots(x) + ExtraSlots(x) + RecordOnlyOutside(x, days);
    }
  }

  lemma {:induction false} LatestExists(days: set<Day>)
    requires days != {}
    ensures exists d :: d in days && forall e :: e in days ==> e <= d
    decreases |days|
  {
    var d :| d in days;
    var rest := days - {d};
    if rest == {} {
      assert forall e :: e in days ==> e == d || e in rest;
    } else {
      LatestExists(rest);
      var m :| m in rest && forall e :: e in rest ==> e <= m;
      var latest := if m < d then d else m;
      assert latest in days;
      forall e | e in days
        ensures e <= latest
      {
        assert e == d || e in rest;
      }
    }
  }

  /** The days after the last attended one, read off the day statuses. */
  ghost function TrailingOf(dayStatus: map<Day, bool>): set<Day> {
    set d | d in dayStatus && forall e :: e in dayStatus && d <= e ==> !dayStatus[e]
  }

  lemma TrailingOfMarks(dayStatus: map<Day, bool>, m: Marks)
    requires DaysAgree(dayStatus, m)
    ensures TrailingOf(dayStatus) == TrailingAbsentDays(m)
  {
    AttendedDaysWithin(m);
  }

  lemma AttendedDaysWithin(m: Marks)
    ensures AttendedDays(m) <= DaysOf(m)
  {
  }

  /** A walk from the latest day down has counted these days and has these left. */
  ghost predicate Walked(dayStatus: map<Day, bool>, counted: set<Day>, remaining: set<Day>) {
    && counted + remaining == dayStatus.Keys
    && (forall c, r :: c in counted && r in remaining ==> r < c)
    && (forall c :: c in counted ==> !dayStatus[c])
  }

  lemma WalkOn(dayStatus: map<Day, bool>, counted: set<Day>, remaining: set<Day>, d: Day)
    requires Walked(dayStatus, counted, remaining)
    requires d in remaining && forall e :: e in remaining ==> e <= d
    ensures d !in counted
    ensures dayStatus[d] ==> TrailingOf(dayStatus) == counted
    ensures !dayStatus[d] ==> Walked(dayStatus, counted + {d}, remaining - {d})
  {
    if dayStatus[d] {
      forall e | e in dayStatus
        ensures e in TrailingOf(dayStatus) <==> e in counted
      {
        assert e <= d ==> e !in TrailingOf(dayStatus);
      }
    }
  }

  lemma WalkEnds(dayStatus: map<Day, bool>, counted: set<Day>)
    requires Walked(dayStatus, counted, {})
    ensures TrailingOf(dayStatus) == counted
  {
  }

  /** Walks the days backwards and stops at the first attended one. */
  method CountTrailing(dayStatus: map<Day, bool>) returns (streak: nat)
    ensures streak == |TrailingOf(dayStatus)|
  {
    hide TrailingOf;
    var remaining := dayStatus.Keys;
    ghost var counted: set<Day> := {};
    streak := 0;
    while remaining != {}
      invariant Walked(dayStatus, counted, remaining)
      invariant streak == |counted|
      decreases |remaining|
    {
      LatestExists(remaining);
      var d :| d in remaining && forall e :: e in remaining ==> e <= d;
      WalkOn(dayStatus, counted, remaining, d);
      if dayStatus[d] {
        return;
      }
      streak := streak + 1;
      counted := counted + {d};
      remaining := remaining - {d};
    }
    WalkEnds(dayStatus, counted);
  }

  method LastAbsent(dayStatus: map<Day, bool>, ghost m: Marks) returns (last: Option<Day>)
    requires DaysAgree(dayStatus, m)
    ensures IsLatest(last, DaysOf(m) - AttendedDays(m))
  {
    var absent := set d | d in dayStatus && !dayStatus[d];
    assert absent == DaysOf(m) - AttendedDays(m);
    if absent == {} {
      last := None;
    } else {
      LatestExists(absent);
      var d :| d in absent && forall e :: e in absent ==> e <= d;
      last := Some(d);
    }
  }

  function DeliveredBySchedule(schedules: seq<Schedule>, from: Day, now: Moment): int {
    if schedules == [] then 0
    else DeliveredBySchedule(schedules[..|schedules| - 1], from, now)
         + CountDeliveredOccurrences(schedules[|schedules| - 1], from, now)
  }

  lemma StartedOfSize(s: Schedule, from: Day, now: Moment)
    ensures |StartedOf(s, from, now)| == CountDeliveredOccurrences(s, from, now)
  {
    ClosedFormCountsDeliveredDays(s, from, now);
    SlotsOfDays(s.id, DeliveredDays(s, from, now));
    assert StartedOf(s, from, now) == SlotsFor(s.id, DeliveredDays(s, from, now));
  }

  ghost function SlotsFor(id: int, days: set<Day>): set<Occurrence> {
    set d | d in days :: Slot(id, d)
  }

  lemma {:induction false} SlotsOfDays(id: int, days: set<Day>)
    ensures |SlotsFor(id, days)| == |days|
    decreases |days|
  {
    if days != {} {
      var d :| d in days;
      SlotsOfDays(id, days - {d});
      assert SlotsFor(id, days) == SlotsFor(id, days - {d}) + {Slot(id, d)};
    }
  }

  ghost function StartedUpTo(x: Evidence, k: nat): set<Occurrence>
    requires k <= |x.schedules|
  {
    set i, o | 0 <= i < k && o in StartedOf(x.schedules[i], x.from, x.now) :: o
  }

  /** The closed form summed over the schedules is the number of slots the first pass counts. */
  lemma ScheduleSumIsStartedSlots(x: Evidence)
    requires Fetched(x)
    ensures DeliveredBySchedule(x.schedules, x.from, x.now) == |StartedSlots(x)|
  {
    ScheduleSumUpTo(x, |x.schedules|);
    assert x.schedules[..|x.schedules|] == x.schedules;
    assert StartedUpTo(x, |x.schedules|) == StartedSlots(x);
  }

  lemma {:induction false} ScheduleSumUpTo(x: Evidence, k: nat)
    requires Fetched(x) && k <= |x.schedules|
    ensures DeliveredBySchedule(x.schedules[..k], x.from, x.now) == |StartedUpTo(x, k)|
  {
    if k == 0 {
      assert StartedUpTo(x, 0) == {};
    } else {
      var s := x.schedules[k - 1];
      ScheduleSumUpTo(x, k - 1);
      assert x.schedules[..k][..k - 1] == x.schedules[..k - 1];
      StartedOfSize(s, x.from, x.now);
      var before, more := StartedUpTo(x, k - 1), StartedOf(s, x.from, x.now);
      assert StartedUpTo(x, k) == before + more;
      assert before !! more;
    }
  }

  ghost predicate MergedCounts(x: Evidence, t: Tally, delivered: nat, attended: nat) {
    if t.delivered > 0 then delivered == t.delivered && attended == t.attended
    else delivered == FallbackDelivered(x) && attended == Min(delivered, PresentRows(x.records))
  }

  /** The fallback: when the merge counted nothing, so did the timetable. */
  method FallBack(x: Evidence, l: Lookups, t: Tally) returns (delivered: nat, attended: nat)
    requires Fetched(x) && LookupsOf(x, l)
    requires Agrees(t, MarksOver(x, Occurrences(x)))
    ensures MergedCounts(x, t, delivered, attended)
  {
    delivered, attended := t.delivered, t.attended;
    if delivered <= 0 {
      NothingStarted(x, t);
      delivered := Max(DeliveredBySchedule(x.schedules, x.from, x.now), Max(|l.recordsByDate|, |l.submissionByKey|));
      attended := Min(delivered, PresentRows(x.records));
    }
  }

  lemma NothingStarted(x: Evidence, t: Tally)
    requires Fetched(x) && t.delivered == 0
    requires Agrees(t, MarksOver(x, Occurrences(x)))
    ensures DeliveredBySchedule(x.schedules, x.from, x.now) == 0
  {
    ScheduleSumIsStartedSlots(x);
    var m := MarksOver(x, Occurrences(x));
    assert m.Keys == Occurrences(x);
    assert |m| == 0 ==> Occurrences(x) == {};
    assert StartedSlots(x) <= Occurrences(x);
  }

  lemma AttendedWithin(m: Marks)
    ensures |Attended(m)| <= |m| && |Attended(m)| + |Missed(m)| == |m|
  {
    assert Attended(m) !! Missed(m);
    assert m.Keys == Attended(m) + Missed(m);
  }

  lemma Assembled(x: Evidence, t: Tally, s: Snapshot)
    requires Agrees(t, MarksOver(x, Occurrences(x)))
    requires MergedCounts(x, t, s.delivered, s.present)
    requires s.absent == s.delivered - s.present
    requires s.hundredths == (if s.delivered == 0 then 0 else RoundedPercent(s.present, s.delivered))
    requires s.consecutive == |TrailingOf(t.dayStatus)|
    requires IsLatest(s.lastAbsent, DaysOf(MarksOver(x, Occurrences(x))) - AttendedDays(MarksOver(x, Occurrences(x))))
    ensures IsSnapshotOf(x, s)
  {
    hide MarksOver, Occurrences, DaysAgree, IsLatest, TrailingOf, TrailingAbsentDays, FallbackDelivered, PresentRows;
    TrailingOfMarks(t.dayStatus, MarksOver(x, Occurrences(x)));
  }

  lemma NothingMerged(x: Evidence, t: Tally, delivered: nat, attended: nat)
    requires Agrees(t, MarksOver(x, Occurrences(x))) && MergedCounts(x, t, delivered, attended)
    ensures attended <= delivered
    ensures delivered == 0 ==> attended == 0 && t.dayStatus == map[]
    ensures delivered == 0 ==> DaysOf(MarksOver(x, Occurrences(x))) == {} && TrailingOf(t.dayStatus) == {}
  {
    var m := MarksOver(x, Occurrences(x));
    AttendedWithin(m);
    if delivered == 0 {
      assert |m| == 0;
      assert m == map[];
      assert DaysOf(m) == {};
      assert t.dayStatus.Keys == {};
    }
  }

  /** The whole merge. The result is a function of the evidence, whatever order the passes take. */
  method CourseAttendanceSnapshot(x: Evidence) returns (s: Snapshot)
    requires Fetched(x)
    ensures IsSnapshotOf(x, s) && s == SnapshotOf(x)
  {
    hide *;
    var l := BuildLookups(x);
    var agenda := BuildAgenda(x);
    var t := CountStartedSlots(x, l, agenda);
    t := CountExtraSubmissions(x, l, t);
    t := CountRecordDays(x, l, t);
    ghost var m := MarksOver(x, Occurrences(x));
    assert DaysAgree(t.dayStatus, m) by { AgreesDays(t, m); }
    var delivered, attended := FallBack(x, l, t);
    NothingMerged(x, t, delivered, attended);
    if delivered == 0 {
      NothingLatest(m);
      s := Snapshot(0, 0, 0, 0, 0, None);
      Assembled(x, t, s);
      SnapshotUnique(x, s);
      return;
    }
    if attended > delivered {
      attended := delivered;
    }
    var streak := CountTrailing(t.dayStatus);
    var last := LastAbsent(t.dayStatus, m);
    var absent := if delivered - attended < 0 then 0 else delivered - attended;
    s := Snapshot(RoundedPercent(attended, delivered), attended, absent, delivered, streak, last);
    Assembled(x, t, s);
    SnapshotUnique(x, s);
  }

  lemma AgreesDays(t: Tally, m: Marks)
    requires Agrees(t, m)
    ensures DaysAgree(t.dayStatus, m)
  {
  }

  lemma NothingLatest(m: Marks)
    ensures DaysOf(m) == {} ==> IsLatest(None, DaysOf(m) - AttendedDays(m))
  {
  }
}
