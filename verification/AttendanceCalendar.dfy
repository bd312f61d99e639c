/** Days, clock readings and the weekly slots of a class timetable. */
module AttendanceCalendar {

  /** A calendar day, numbered from a Monday, so a weekday is a remainder modulo 7. */
  type Day = nat

  type Weekday = w: int | 0 <= w < 7 witness 0

  /** A clock reading: the day and the second of that day. */
  datatype Moment = Moment(day: Day, second: nat)

  /** An active row of the class timetable. */
  datatype Schedule = Schedule(id: int, weekday: Weekday, start: nat)

  function WeekdayOf(d: Day): Weekday {
    d % 7
  }

  predicate Started(s: Schedule, d: Day, now: Moment) {
    d < now.day || (d == now.day && s.start <= now.second)
  }

  /** The days on which a schedule has delivered a class, said without any arithmetic on weeks. */
  ghost function DeliveredDays(s: Schedule, from: Day, now: Moment): set<Day> {
    set d | from <= d <= now.day && WeekdayOf(d) == s.weekday && Started(s, d, now)
  }

  function FirstClassDate(s: Schedule, from: Day): Day {
    from + (s.weekday - WeekdayOf(from)) % 7
  }

  /** The closed form the recovery code uses for the number of delivered classes. */
  function CountDeliveredOccurrences(s: Schedule, from: Day, now: Moment): int {
    if from > now.day then 0 else
    var first := FirstClassDate(s, from);
    if first > now.day then 0 else
    var total := (now.day - first) / 7 + 1;
    if total <= 0 then 0 else
    var delivered := if WeekdayOf(now.day) == s.weekday && now.second < s.start then total - 1 else total;
    if delivered < 0 then 0 else delivered
  }

  /** Every seventh day from first up to last. */
  ghost function Weekly(first: Day, last: Day): set<Day>
    decreases last - first
  {
    if first > last then {} else {first} + Weekly(first + 7, last)
  }

  lemma {:induction false} WeeklyMembers(first: Day, last: Day)
    ensures forall d :: d in Weekly(first, last) <==> first <= d <= last && (d - first) % 7 == 0
    decreases last - first
  {
    if first <= last {
      WeeklyMembers(first + 7, last);
      forall d
        ensures d in Weekly(first, last) <==> first <= d <= last && (d - first) % 7 == 0
      {
        assert (d - (first + 7)) % 7 == (d - first) % 7;
        assert first < d < first + 7 ==> (d - first) % 7 != 0;
      }
    }
  }

  lemma {:induction false} WeeklySize(first: Day, last: Day)
    requires first <= last + 7
    ensures |Weekly(first, last)| == (last - first) / 7 + 1
    decreases last - first
  {
    if first <= last {
      WeeklySize(first + 7, last);
      WeeklyMembers(first + 7, last);
      assert (last - (first + 7)) / 7 == (last - first) / 7 - 1;
    }
  }

  /** Stepping a week at a time from the first class date meets exactly the days of that weekday. */
  lemma SteppedDays(s: Schedule, from: Day, last: Day)
    ensures from <= FirstClassDate(s, from) < from + 7
    ensures forall d :: d in Weekly(FirstClassDate(s, from), last) <==> from <= d <= last && WeekdayOf(d) == s.weekday
  {
    var first := FirstClassDate(s, from);
    WeeklyMembers(first, last);
    FirstClassWeekday(s, from);
    forall d
      ensures d in Weekly(first, last) <==> from <= d <= last && WeekdayOf(d) == s.weekday
    {
      SameRemainder(d, first);
      assert d < first && from <= d ==> -7 < d - first < 0;
    }
  }

  lemma FirstClassWeekday(s: Schedule, from: Day)
    ensures WeekdayOf(FirstClassDate(s, from)) == s.weekday
  {
    var gap := s.weekday - WeekdayOf(from);
    assert from % 7 + gap == s.weekday;
    assert (from + gap % 7) % 7 == (from % 7 + gap) % 7;
  }

  lemma SameRemainder(a: int, b: int)
    ensures (a - b) % 7 == 0 <==> a % 7 == b % 7
  {
  }

  /** The closed form is exactly the number of delivered days, for every start date, weekday,
      start time and clock reading. */
  lemma ClosedFormCountsDeliveredDays(s: Schedule, from: Day, now: Moment)
    ensures CountDeliveredOccurrences(s, from, now) == |DeliveredDays(s, from, now)|
  {
    var first := FirstClassDate(s, from);
    var weekly := Weekly(first, now.day);
    SteppedDays(s, from, now.day);
    if now.day < first {
      assert forall d :: d !in Weekly(first, now.day);
      assert DeliveredDays(s, from, now) == {};
    } else {
      WeeklySize(first, now.day);
      if WeekdayOf(now.day) == s.weekday && now.second < s.start {
        assert now.day in weekly;
        assert DeliveredDays(s, from, now) == weekly - {now.day};
      } else {
        assert DeliveredDays(s, from, now) == weekly;
      }
    }
  }
}
