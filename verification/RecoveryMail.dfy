/** The e-mail window of attendance recovery: evaluation, retro-dispatch and autopilot all send
    through one guarded function that writes the notification log. Times are seconds. */
module RecoveryMail {

  import opened Basics

  datatype Channel = StudentEmail | FacultyEmail

  /** One row of the notification log. A suppressed row (written instead of sending when the test
      environment is on) counts against the window of its channel like a sent one. The codes are
      the course codes that its text contains. */
  datatype Entry = Entry(student: nat, channel: Channel, suppressed: bool, codes: set<nat>, at: int)

  /** Cool-down minutes as read from the environment. */
  datatype Settings = Settings(studentMinutes: int, facultyMinutes: int, retroMinutes: int)

  datatype Delivery = Delivered | SuppressedByTest | Failed

  /** Where a dispatch raises, if it gets there: before the student's mail, or before the faculty's. */
  datatype Break = Never | BeforeStudent | BeforeFaculty

  /** The clock readings of one dispatch, in the order they are taken. */
  datatype Readings = Readings(guard: int, studentCheck: int, studentLog: int,
                               facultyGuard: int, facultyCheck: int, facultyLog: int)

  /** One student and course to write about. */
  datatype Occasion = Occasion(student: nat, course: nat, studentKnown: bool, facultyKnown: bool,
                               studentDelivery: Delivery, facultyDelivery: Delivery,
                               studentCodes: set<nat>, facultyCodes: set<nat>, breaks: Break, readings: Readings)

  function StudentMinutes(c: Settings): int {
    Max(30, c.studentMinutes)
  }

  function FacultyMinutes(c: Settings): int {
    Max(30, c.facultyMinutes)
  }

  function RetroMinutes(c: Settings): int {
    Max(StudentMinutes(c), c.retroMinutes)
  }

  function CooldownMinutes(c: Settings, channel: Channel): int {
    match channel
    case StudentEmail => StudentMinutes(c)
    case FacultyEmail => FacultyMinutes(c)
  }

  predicate Recent(log: seq<Entry>, student: nat, channel: Channel, minutes: int, now: int) {
    exists e :: e in log && e.student == student && e.channel == channel && e.at >= now - 60 * Max(1, minutes)
  }

  predicate RecentForCourse(log: seq<Entry>, student: nat, channel: Channel, course: nat, minutes: int, now: int) {
    exists e :: e in log && e.student == student && e.channel == channel && course in e.codes
                && e.at >= now - 60 * Max(1, minutes)
  }

  function SafeSend(c: Settings, log: seq<Entry>, student: nat, channel: Channel, known: bool, codes: set<nat>,
                    delivery: Delivery, checkedAt: int, loggedAt: int): seq<Entry>
  {
    if !known || Recent(log, student, channel, CooldownMinutes(c, channel), checkedAt) then log
    else match delivery
      case Failed => log
      case SuppressedByTest => log + [Entry(student, channel, true, codes, loggedAt)]
      case Delivered => log + [Entry(student, channel, false, codes, loggedAt)]
  }

  /** The log after one dispatch, also when it raises on its way. */
  function Dispatch(c: Settings, log: seq<Entry>, o: Occasion): seq<Entry> {
    var r := o.readings;
    if Recent(log, o.student, StudentEmail, StudentMinutes(c), r.guard) || o.breaks == BeforeStudent then log else
    var told := SafeSend(c, log, o.student, StudentEmail, o.studentKnown, o.studentCodes, o.studentDelivery,
                         r.studentCheck, r.studentLog);
    if !o.facultyKnown || o.breaks == BeforeFaculty
       || RecentForCourse(told, o.student, FacultyEmail, o.course, FacultyMinutes(c), r.facultyGuard) then told
    else SafeSend(c, told, o.student, FacultyEmail, true, o.facultyCodes, o.facultyDelivery, r.facultyCheck,
                  r.facultyLog)
  }

  predicate Raises(c: Settings, log: seq<Entry>, o: Occasion) {
    && !Recent(log, o.student, StudentEmail, StudentMinutes(c), o.readings.guard)
    && (o.breaks == BeforeStudent || (o.breaks == BeforeFaculty && o.facultyKnown))
  }

  /** The end of an evaluation that found a risk. */
  function EvaluationMail(c: Settings, log: seq<Entry>, isNew: bool, riskChanged: bool, checkedAt: int,
                          o: Occasion): seq<Entry> {
    if isNew || riskChanged || !Recent(log, o.student, StudentEmail, StudentMinutes(c), checkedAt)
    then Dispatch(c, log, o) else log
  }

  function Cooloff(c: Settings, minutes: Option<int>): int {
    Max(StudentMinutes(c), if minutes.Some? then minutes.value else RetroMinutes(c))
  }

  /** One plan of a retro-dispatch. */
  function RetroMail(c: Settings, log: seq<Entry>, force: bool, dryRun: bool, minutes: Option<int>, checkedAt: int,
                     o: Occasion): seq<Entry> {
    if (!force && Recent(log, o.student, StudentEmail, Cooloff(c, minutes), checkedAt)) || dryRun then log
    else Dispatch(c, log, o)
  }

  /** Autopilot is a retro-dispatch that is neither forced nor dry, with the configured cool-down. */
  datatype Event =
    | Evaluated(isNew: bool, riskChanged: bool, checkedAt: int, occasion: Occasion)
    | Retro(force: bool, dryRun: bool, minutes: Option<int>, checkedAt: int, occasion: Occasion)

  function Apply(c: Settings, log: seq<Entry>, e: Event): seq<Entry> {
    match e
    case Evaluated(isNew, riskChanged, at, o) => EvaluationMail(c, log, isNew, riskChanged, at, o)
    case Retro(force, dryRun, minutes, at, o) => RetroMail(c, log, force, dryRun, minutes, at, o)
  }

  function Run(c: Settings, events: seq<Event>): seq<Entry> {
    if events == [] then [] else Apply(c, Run(c, events[..|events| - 1]), events[|events| - 1])
  }

  // ----- the clock never runs backwards -----

  ghost predicate InOrder(r: Readings) {
    r.guard <= r.studentCheck <= r.studentLog <= r.facultyGuard <= r.facultyCheck <= r.facultyLog
  }

  ghost predicate Timely(events: seq<Event>) {
    && (forall i :: 0 <= i < |events| ==>
          events[i].checkedAt <= events[i].occasion.readings.guard && InOrder(events[i].occasion.readings))
    && (forall i, j :: 0 <= i < j < |events| ==> events[i].occasion.readings.facultyLog <= events[j].checkedAt)
  }

  // ----- the window -----

  predicate SameWindow(a: Entry, b: Entry) {
    a.student == b.student && a.channel == b.channel
  }

  ghost predicate Spaced(c: Settings, log: seq<Entry>) {
    forall i, j :: 0 <= i < j < |log| && SameWindow(log[i], log[j]) ==>
      log[j].at - log[i].at > 60 * CooldownMinutes(c, log[j].channel)
  }

  /** Nothing in the log is later than the given instant. */
  ghost predicate Until(log: seq<Entry>, t: int) {
    forall e :: e in log ==> e.at <= t
  }

  lemma SafeSendSpaced(c: Settings, log: seq<Entry>, student: nat, channel: Channel, known: bool, codes: set<nat>,
                       delivery: Delivery, checkedAt: int, loggedAt: int)
    requires Spaced(c, log) && Until(log, checkedAt) && checkedAt <= loggedAt
    ensures var after := SafeSend(c, log, student, channel, known, codes, delivery, checkedAt, loggedAt);
            Spaced(c, after) && Until(after, loggedAt)
  {
    var after := SafeSend(c, log, student, channel, known, codes, delivery, checkedAt, loggedAt);
    if after != log {
      forall i | 0 <= i < |log| && SameWindow(log[i], after[|log|])
        ensures loggedAt - log[i].at > 60 * CooldownMinutes(c, channel)
      {
        assert log[i] in log;
      }
    }
  }

  lemma DispatchSpaced(c: Settings, log: seq<Entry>, o: Occasion, t: int)
    requires Spaced(c, log) && Until(log, t) && t <= o.readings.guard && InOrder(o.readings)
    ensures Spaced(c, Dispatch(c, log, o)) && Until(Dispatch(c, log, o), o.readings.facultyLog)
  {
    hide Spaced;
    var r := o.readings;
    SafeSendSpaced(c, log, o.student, StudentEmail, o.studentKnown, o.studentCodes, o.studentDelivery, r.studentCheck,
                   r.studentLog);
    var told := SafeSend(c, log, o.student, StudentEmail, o.studentKnown, o.studentCodes, o.studentDelivery,
                         r.studentCheck, r.studentLog);
    SafeSendSpaced(c, told, o.student, FacultyEmail, true, o.facultyCodes, o.facultyDelivery, r.facultyCheck,
                   r.facultyLog);
  }

  /** In every run of evaluations, retro-dispatches (forced or not) and autopilot cycles, two mails
      logged for one student on one channel are more than that channel's cool-down apart. */
  lemma {:induction false} RunSpaced(c: Settings, events: seq<Event>)
    requires Timely(events)
    ensures Spaced(c, Run(c, events))
    ensures forall i :: 0 <= i < |events| && i == |events| - 1 ==>
            Until(Run(c, events), events[i].occasion.readings.facultyLog)
  {
    hide Spaced, Dispatch, Recent;
    if events == [] {
      EmptySpaced(c);
    } else {
      var n := |events| - 1;
      RunSpaced(c, events[..n]);
      var log, e := Run(c, events[..n]), events[n];
      assert Until(log, e.checkedAt) by {
        if n > 0 {
          assert events[..n][n - 1] == events[n - 1];
        }
      }
      DispatchSpaced(c, log, e.occasion, e.checkedAt);
    }
  }

  lemma EmptySpaced(c: Settings)
    ensures Spaced(c, [])
  {
  }

  /** The window is no wider than it says: a known recipient with nothing logged inside the window
      is written to whenever delivery works, and nobody else is. */
  lemma SafeSendLogsExactly(c: Settings, log: seq<Entry>, student: nat, channel: Channel, known: bool, codes: set<nat>,
                            delivery: Delivery, checkedAt: int, loggedAt: int)
    ensures var after := SafeSend(c, log, student, channel, known, codes, delivery, checkedAt, loggedAt);
            && log <= after && |after| <= |log| + 1
            && (|after| > |log| <==>
                known && delivery != Failed
                && forall e :: e in log && e.student == student && e.channel == channel ==>
                                 checkedAt - e.at > 60 * CooldownMinutes(c, channel))
            && (|after| > |log| ==>
                  after[|log|] == Entry(student, channel, delivery == SuppressedByTest, codes, loggedAt))
  {
  }

  // ----- what the extra guards amount to -----

  /** A new plan or a changed risk never gets a mail through the student's window: it only spares the
      dispatch a first look at the window, which matters exactly when the window runs out between
      that look and the dispatch's own. */
  lemma OnlyTheWindowDecides(c: Settings, log: seq<Entry>, isNew: bool, riskChanged: bool, checkedAt: int, o: Occasion)
    requires checkedAt <= o.readings.guard
    ensures var first := Recent(log, o.student, StudentEmail, StudentMinutes(c), checkedAt);
            var second := Recent(log, o.student, StudentEmail, StudentMinutes(c), o.readings.guard);
            && (second ==> first)
            && EvaluationMail(c, log, isNew, riskChanged, checkedAt, o)
               == if second || (first && !isNew && !riskChanged) then log else Dispatch(c, log, o)
  {
  }

  /** Forcing a retro-dispatch lifts its own cool-down but not the student's window. */
  lemma ForceKeepsTheWindow(c: Settings, log: seq<Entry>, minutes: Option<int>, t: int, o: Occasion)
    requires Recent(log, o.student, StudentEmail, StudentMinutes(c), o.readings.guard)
    ensures RetroMail(c, log, true, false, minutes, t, o) == log
  {
  }

  /** Without force, whatever cool-down the caller asks for, nothing is sent to a student written to
      within the longer of that and the student's window. */
  lemma RetroNeverUndercuts(c: Settings, log: seq<Entry>, dryRun: bool, minutes: Option<int>, t: int, o: Occasion,
                            e: Entry)
    requires e in log && e.student == o.student && e.channel == StudentEmail
    requires t - e.at <= 60 * StudentMinutes(c) || (minutes.Some? && t - e.at <= 60 * minutes.value)
    ensures RetroMail(c, log, false, dryRun, minutes, t, o) == log
  {
    assert Recent(log, o.student, StudentEmail, Cooloff(c, minutes), t);
  }

  ghost predicate Quiet(log: seq<Entry>, student: nat, channel: Channel, minutes: int, t: int) {
    forall e :: e in log && e.student == student && e.channel == channel ==> t - e.at > 60 * minutes
  }

  ghost predicate TellsFaculty(before: seq<Entry>, after: seq<Entry>) {
    exists i :: |before| <= i < |after| && after[i].channel == FacultyEmail
  }

  /** The student is due a mail: an address, a delivery that works, nothing raised before, and a quiet
      window at the dispatch's own look and again when the mail is sent. */
  ghost predicate StudentDue(c: Settings, log: seq<Entry>, o: Occasion) {
    && o.studentKnown && o.studentDelivery != Failed && o.breaks != BeforeStudent
    && Quiet(log, o.student, StudentEmail, StudentMinutes(c), o.readings.guard)
    && Quiet(log, o.student, StudentEmail, StudentMinutes(c), o.readings.studentCheck)
  }

  ghost predicate FacultyDue(c: Settings, log: seq<Entry>, o: Occasion) {
    && o.facultyKnown && o.facultyDelivery != Failed && o.breaks == Never
    && Quiet(log, o.student, StudentEmail, StudentMinutes(c), o.readings.guard)
    && (forall e :: e in log && e.student == o.student && e.channel == FacultyEmail && o.course in e.codes ==>
          o.readings.facultyGuard - e.at > 60 * FacultyMinutes(c))
    && Quiet(log, o.student, FacultyEmail, FacultyMinutes(c), o.readings.facultyCheck)
  }

  /** The whole of one dispatch: the log grows by the student's entry if that is due, then by the
      faculty's if that is due, each with its own course codes, suppressed mark and time. */
  lemma DispatchExactly(c: Settings, log: seq<Entry>, o: Occasion)
    ensures Dispatch(c, log, o)
            == log
               + (if StudentDue(c, log, o) then [Entry(o.student, StudentEmail, o.studentDelivery == SuppressedByTest,
                                                       o.studentCodes, o.readings.studentLog)] else [])
               + (if FacultyDue(c, log, o) then [Entry(o.student, FacultyEmail, o.facultyDelivery == SuppressedByTest,
                                                       o.facultyCodes, o.readings.facultyLog)] else [])
  {
    var r := o.readings;
    var told := SafeSend(c, log, o.student, StudentEmail, o.studentKnown, o.studentCodes, o.studentDelivery,
                         r.studentCheck, r.studentLog);
    SafeSendLogsExactly(c, log, o.student, StudentEmail, o.studentKnown, o.studentCodes, o.studentDelivery,
                        r.studentCheck, r.studentLog);
    SafeSendLogsExactly(c, told, o.student, FacultyEmail, true, o.facultyCodes, o.facultyDelivery,
                        r.facultyCheck, r.facultyLog);
    assert forall e: Entry :: e.channel == FacultyEmail ==> (e in told <==> e in log);
    QuietIsNotRecent(log, o.student, StudentEmail, StudentMinutes(c), r.guard);
    hide SafeSend;
  }

  lemma QuietIsNotRecent(log: seq<Entry>, student: nat, channel: Channel, minutes: int, t: int)
    requires minutes >= 1
    ensures Recent(log, student, channel, minutes, t) <==> !Quiet(log, student, channel, minutes, t)
  {
  }

  ghost predicate TellsStudent(before: seq<Entry>, after: seq<Entry>) {
    exists i :: |before| <= i < |after| && after[i].channel == StudentEmail
  }

  /** When student mail is logged, exactly. */
  lemma StudentMailExactly(c: Settings, log: seq<Entry>, o: Occasion)
    ensures TellsStudent(log, Dispatch(c, log, o)) <==> StudentDue(c, log, o)
  {
    DispatchExactly(c, log, o);
    hide Dispatch, StudentDue, FacultyDue;
    var after := Dispatch(c, log, o);
    if StudentDue(c, log, o) {
      assert after[|log|].channel == StudentEmail;
    }
  }

  /** A dispatch raises exactly if it gets past the student's window and something breaks on its way: at
      once, or before the faculty's mail when there is a faculty to write to. */
  lemma RaisesExactly(c: Settings, log: seq<Entry>, o: Occasion)
    ensures Raises(c, log, o)
            <==> Quiet(log, o.student, StudentEmail, StudentMinutes(c), o.readings.guard)
                 && match o.breaks {
                   case Never => false
                   case BeforeStudent => true
                   case BeforeFaculty => o.facultyKnown
                 }
  {
    QuietIsNotRecent(log, o.student, StudentEmail, StudentMinutes(c), o.readings.guard);
  }

  /** A retro-dispatch is a dispatch exactly if it is no dry run and is forced or the student was not
      written to for the longest of the student's window and the cool-down asked for or configured. */
  lemma RetroIsExact(c: Settings, log: seq<Entry>, force: bool, dryRun: bool, minutes: Option<int>, t: int, o: Occasion)
    ensures var asked := if minutes.Some? then minutes.value else RetroMinutes(c);
            var open := !dryRun && (force || (Quiet(log, o.student, StudentEmail, StudentMinutes(c), t)
                                              && Quiet(log, o.student, StudentEmail, asked, t)));
            RetroMail(c, log, force, dryRun, minutes, t, o) == if open then Dispatch(c, log, o) else log
  {
    QuietIsNotRecent(log, o.student, StudentEmail, Cooloff(c, minutes), t);
    hide Dispatch;
  }

  /** Configured cool-downs are kept from half an hour up, and the retro one from the student's up. */
  lemma CooldownsAreHonoured(c: Settings)
    ensures StudentMinutes(c) == if c.studentMinutes >= 30 then c.studentMinutes else 30
    ensures FacultyMinutes(c) == if c.facultyMinutes >= 30 then c.facultyMinutes else 30
    ensures RetroMinutes(c) == if c.retroMinutes >= StudentMinutes(c) then c.retroMinutes else StudentMinutes(c)
    ensures CooldownMinutes(c, StudentEmail) == StudentMinutes(c)
            && CooldownMinutes(c, FacultyEmail) == FacultyMinutes(c)
  {
  }

  /** When faculty mail is logged, exactly, whatever the clock readings: the course's own check comes
      first, and the check for mail about any course comes after it, at a later reading. */
  lemma FacultyMailExactly(c: Settings, log: seq<Entry>, o: Occasion)
    ensures var r := o.readings;
            TellsFaculty(log, Dispatch(c, log, o))
            <==> o.facultyKnown && o.facultyDelivery != Failed && o.breaks == Never
                 && Quiet(log, o.student, StudentEmail, StudentMinutes(c), r.guard)
                 && !RecentForCourse(log, o.student, FacultyEmail, o.course, FacultyMinutes(c), r.facultyGuard)
                 && Quiet(log, o.student, FacultyEmail, FacultyMinutes(c), r.facultyCheck)
  {
    var r := o.readings;
    var told := SafeSend(c, log, o.student, StudentEmail, o.studentKnown, o.studentCodes, o.studentDelivery,
                         r.studentCheck, r.studentLog);
    SafeSendLogsExactly(c, log, o.student, StudentEmail, o.studentKnown, o.studentCodes, o.studentDelivery,
                        r.studentCheck, r.studentLog);
    SafeSendLogsExactly(c, told, o.student, FacultyEmail, true, o.facultyCodes, o.facultyDelivery,
                        r.facultyCheck, r.facultyLog);
    assert forall e: Entry :: e.channel == FacultyEmail ==> (e in told <==> e in log);
    assert !Recent(log, o.student, StudentEmail, StudentMinutes(c), r.guard)
           <==> Quiet(log, o.student, StudentEmail, StudentMinutes(c), r.guard);
    hide SafeSend;
    var after := Dispatch(c, log, o);
    if |after| > |told| {
      assert after[|told|].channel == FacultyEmail;
    }
  }

  /** A faculty mail of the student leaves the window between the two faculty readings. */
  ghost predicate ExpiresBetween(log: seq<Entry>, student: nat, minutes: int, r: Readings) {
    exists e :: e in log && e.student == student && e.channel == FacultyEmail
                && r.facultyGuard - e.at <= 60 * minutes < r.facultyCheck - e.at
  }

  /** A comment in the source announces faculty mail once a day per student and course. In fact it is
      once per student: the course plays no part in whether the mail is logged, unless a faculty mail
      leaves the window between the two readings. */
  lemma FacultyMailIgnoresTheCourse(c: Settings, log: seq<Entry>, o: Occasion)
    requires !ExpiresBetween(log, o.student, FacultyMinutes(c), o.readings)
    ensures TellsFaculty(log, Dispatch(c, log, o))
            <==> o.facultyKnown && o.facultyDelivery != Failed && o.breaks == Never
                 && Quiet(log, o.student, StudentEmail, StudentMinutes(c), o.readings.guard)
                 && Quiet(log, o.student, FacultyEmail, FacultyMinutes(c), o.readings.facultyCheck)
  {
    FacultyMailExactly(c, log, o);
    hide Dispatch, TellsFaculty;
  }

  /** In the gap the course does decide: the mail is withheld exactly if one that left the window
      between the readings names the course. */
  lemma CourseDecidesInTheGap(c: Settings, log: seq<Entry>, o: Occasion)
    requires o.facultyKnown && o.facultyDelivery != Failed && o.breaks == Never
    requires Quiet(log, o.student, StudentEmail, StudentMinutes(c), o.readings.guard)
    requires Quiet(log, o.student, FacultyEmail, FacultyMinutes(c), o.readings.facultyCheck)
    ensures TellsFaculty(log, Dispatch(c, log, o))
            <==> !exists e :: e in log && e.student == o.student && e.channel == FacultyEmail && o.course in e.codes
                    && o.readings.facultyGuard - e.at <= 60 * FacultyMinutes(c) < o.readings.facultyCheck - e.at
  {
    FacultyMailExactly(c, log, o);
    hide Dispatch, TellsFaculty;
  }

  /** For example, a mail about course 1 that is 1800 seconds old at the first reading and 1801 at the
      second withholds the mail about course 1 and not the one about course 2. */
  lemma GapExample(c: Settings)
    requires FacultyMinutes(c) == 30
    ensures var log := [Entry(5, FacultyEmail, false, {1}, 0)];
            var r := Readings(1800, 1800, 1800, 1800, 1801, 1801);
            var one := Occasion(5, 1, true, true, Failed, Delivered, {1}, {1}, Never, r);
            InOrder(r) && !TellsFaculty(log, Dispatch(c, log, one))
            && TellsFaculty(log, Dispatch(c, log, one.(course := 2)))
  {
    var log := [Entry(5, FacultyEmail, false, {1}, 0)];
    var one := Occasion(5, 1, true, true, Failed, Delivered, {1}, {1}, Never,
                        Readings(1800, 1800, 1800, 1800, 1801, 1801));
    assert log[0] in log;
    CourseDecidesInTheGap(c, log, one);
    CourseDecidesInTheGap(c, log, one.(course := 2));
  }

  /** A faculty mail inside the window silences every course, named in it or not. */
  lemma AnyCourseIsSilenced(c: Settings, log: seq<Entry>, o: Occasion, e: Entry)
    requires e in log && e.student == o.student && e.channel == FacultyEmail
    requires o.readings.facultyCheck - e.at <= 60 * FacultyMinutes(c)
    ensures !TellsFaculty(log, Dispatch(c, log, o))
  {
    FacultyMailExactly(c, log, o);
    hide Dispatch, TellsFaculty;
  }

  /** For example, a mail about one course silences the next course's faculty on the same day, here
      after a failed delivery to the student. */
  lemma SecondCourseIsSilenced(c: Settings, student: nat, t: int)
    ensures var first := Entry(student, FacultyEmail, false, {1}, t);
            var r := Readings(t, t, t, t, t, t);
            var o := Occasion(student, 2, true, true, Failed, Delivered, {2}, {2}, Never, r);
            !RecentForCourse([first], student, FacultyEmail, 2, FacultyMinutes(c), t)
              && Dispatch(c, [first], o) == [first]
  {
    var first := Entry(student, FacultyEmail, false, {1}, t);
    assert first in [first];
    assert Recent([first], student, FacultyEmail, FacultyMinutes(c), t);
  }

  // ----- the log, updated in place -----

  class MailDesk {
    const settings: Settings
    var log: seq<Entry>

    constructor (settings: Settings)
      ensures this.settings == settings && log == []
    {
      this.settings := settings;
      log := [];
    }

    method SafeSendRecoveryEmail(student: nat, channel: Channel, known: bool, codes: set<nat>,
                                 delivery: Delivery, checkedAt: int, loggedAt: int) returns (written: bool)
      modifies this
      ensures log == SafeSend(settings, old(log), student, channel, known, codes, delivery, checkedAt, loggedAt)
      ensures written <==> log != old(log)
    {
      if !known {
        return false;
      }
      if Recent(log, student, channel, CooldownMinutes(settings, channel), checkedAt) {
        return false;
      }
      if delivery == SuppressedByTest {
        log := log + [Entry(student, channel, true, codes, loggedAt)];
        return true;
      }
      if delivery == Failed {
        return false;
      }
      log := log + [Entry(student, channel, false, codes, loggedAt)];
      written := true;
    }

    method DispatchRecoveryCommunications(o: Occasion) returns (raised: bool)
      modifies this
      ensures log == Dispatch(settings, old(log), o) && raised == Raises(settings, old(log), o)
    {
      var r := o.readings;
      if Recent(log, o.student, StudentEmail, StudentMinutes(settings), r.guard) {
        return false;
      }
      if o.breaks == BeforeStudent {
        return true;
      }
      var _ := SafeSendRecoveryEmail(o.student, StudentEmail, o.studentKnown, o.studentCodes, o.studentDelivery,
                                     r.studentCheck, r.studentLog);
      if !o.facultyKnown {
        return false;
      }
      if o.breaks == BeforeFaculty {
        return true;
      }
      if RecentForCourse(log, o.student, FacultyEmail, o.course, FacultyMinutes(settings), r.facultyGuard) {
        return false;
      }
      var _ := SafeSendRecoveryEmail(o.student, FacultyEmail, true, o.facultyCodes, o.facultyDelivery,
                                     r.facultyCheck, r.facultyLog);
      raised := false;
    }

    /** The loop over the open plans; a dispatch that raises is counted and does not end it. */
    method RetroSend(plans: seq<Target>, force: bool, dryRun: bool, minutes: Option<int>)
      returns (evaluated: nat, eligible: nat, dispatched: nat, skipped: nat, failed: nat)
      modifies this
      ensures log == RetroAll(settings, old(log), plans, force, dryRun, minutes)
      ensures evaluated == |plans|
      ensures eligible == |Faring(settings, old(log), plans, |plans|, force, dryRun, minutes, Eligible)|
      ensures skipped == |Faring(settings, old(log), plans, |plans|, force, dryRun, minutes, Skipped)|
      ensures failed == if dryRun then 0 else |Faring(settings, old(log), plans, |plans|, force, dryRun, minutes,
                                                      Failing)|
      ensures if dryRun then dispatched == 0 && log == old(log) else dispatched + failed == eligible
      ensures force ==> skipped == 0
    {
      hide Dispatch, Recent, Raises;
      evaluated, eligible, dispatched, skipped, failed := 0, 0, 0, 0, 0;
      var cooloff := Cooloff(settings, minutes);
      for i := 0 to |plans|
        invariant log == RetroAll(settings, old(log), plans[..i], force, dryRun, minutes)
        invariant evaluated == i
        invariant eligible == |Faring(settings, old(log), plans, i, force, dryRun, minutes, Eligible)|
        invariant skipped == |Faring(settings, old(log), plans, i, force, dryRun, minutes, Skipped)|
        invariant failed == if dryRun then 0 else |Faring(settings, old(log), plans, i, force, dryRun, minutes,
                                                          Failing)|
        invariant if dryRun then dispatched == 0 && log == old(log) else dispatched + failed == eligible
        invariant force ==> skipped == 0
      {
        hide Faring;
        NextPlan(settings, old(log), plans, force, dryRun, minutes, i);
        evaluated := evaluated + 1;
        match plans[i] {
          case Gone =>
          case Target(at, o) =>
            if !force && Recent(log, o.student, StudentEmail, cooloff, at) {
              skipped := skipped + 1;
            } else {
              eligible := eligible + 1;
              if !dryRun {
                var raised := DispatchRecoveryCommunications(o);
                if raised {
                  failed := failed + 1;
                } else {
                  dispatched := dispatched + 1;
                }
              }
            }
        }
      }
      assert plans[..|plans|] == plans;
    }
  }

  /** One open plan: its student or course may be gone, or the course may be exempt. */
  datatype Target = Gone | Target(checkedAt: int, occasion: Occasion)

  function RetroOne(c: Settings, log: seq<Entry>, p: Target, force: bool, dryRun: bool,
                    minutes: Option<int>): seq<Entry> {
    match p
    case Gone => log
    case Target(at, o) => RetroMail(c, log, force, dryRun, minutes, at, o)
  }

  function RetroAll(c: Settings, log: seq<Entry>, plans: seq<Target>, force: bool, dryRun: bool,
                    minutes: Option<int>): seq<Entry> {
    if plans == [] then log
    else
      var n := |plans| - 1;
      RetroOne(c, RetroAll(c, log, plans[..n], force, dryRun, minutes), plans[n], force, dryRun, minutes)
  }

  /** How a plan fares, given the log it meets. */
  datatype Fate = Eligible | Skipped | Failing

  predicate Fares(c: Settings, log: seq<Entry>, p: Target, force: bool, minutes: Option<int>, fate: Fate) {
    p.Target? &&
    var skip := !force && Recent(log, p.occasion.student, StudentEmail, Cooloff(c, minutes), p.checkedAt);
    match fate
    case Eligible => !skip
    case Skipped => skip
    case Failing => !skip && Raises(c, log, p.occasion)
  }

  /** Of the plans that are still there, one is skipped exactly if it is not forced and its student was
      written to within the student's window or the cool-down; the others are eligible, and fail
      exactly if their dispatch raises. */
  lemma FatesExactly(c: Settings, log: seq<Entry>, at: int, o: Occasion, force: bool, minutes: Option<int>)
    ensures var p := Target(at, o);
            var asked := if minutes.Some? then minutes.value else RetroMinutes(c);
            var quiet := Quiet(log, o.student, StudentEmail, StudentMinutes(c), at)
                         && Quiet(log, o.student, StudentEmail, asked, at);
            && (Fares(c, log, p, force, minutes, Skipped) <==> !force && !quiet)
            && (Fares(c, log, p, force, minutes, Eligible) <==> force || quiet)
            && (Fares(c, log, p, force, minutes, Failing) <==> (force || quiet) && Raises(c, log, o))
    ensures forall fate :: !Fares(c, log, Gone, force, minutes, fate)
  {
    QuietIsNotRecent(log, o.student, StudentEmail, Cooloff(c, minutes), at);
    hide Raises, Recent;
  }

  /** The plans among the first n that fare so, each met by the log its predecessors left. */
  ghost function Faring(c: Settings, log: seq<Entry>, plans: seq<Target>, n: nat, force: bool, dryRun: bool,
                        minutes: Option<int>, fate: Fate): set<nat>
    requires n <= |plans|
  {
    set i: nat | i < n && FaresAt(c, log, plans, i, force, dryRun, minutes, fate)
  }

  predicate FaresAt(c: Settings, log: seq<Entry>, plans: seq<Target>, i: nat, force: bool, dryRun: bool,
                    minutes: Option<int>, fate: Fate)
    requires i < |plans|
  {
    Fares(c, RetroAll(c, log, plans[..i], force, dryRun, minutes), plans[i], force, minutes, fate)
  }

  lemma NextPlan(c: Settings, log: seq<Entry>, plans: seq<Target>, force: bool, dryRun: bool, minutes: Option<int>,
                 i: nat)
    requires i < |plans|
    ensures RetroAll(c, log, plans[..i + 1], force, dryRun, minutes)
            == RetroOne(c, RetroAll(c, log, plans[..i], force, dryRun, minutes), plans[i], force, dryRun, minutes)
    ensures forall fate ::
              |Faring(c, log, plans, i + 1, force, dryRun, minutes, fate)|
              == |Faring(c, log, plans, i, force, dryRun, minutes, fate)|
                 + if FaresAt(c, log, plans, i, force, dryRun, minutes, fate) then 1 else 0
  {
    hide FaresAt, RetroOne, Faring;
    assert plans[..i + 1][..i] == plans[..i];
    forall fate
      ensures |Faring(c, log, plans, i + 1, force, dryRun, minutes, fate)|
              == |Faring(c, log, plans, i, force, dryRun, minutes, fate)|
                 + if FaresAt(c, log, plans, i, force, dryRun, minutes, fate) then 1 else 0
    {
      FaringGrows(c, log, plans, force, dryRun, minutes, i, fate);
    }
  }

  lemma FaringGrows(c: Settings, log: seq<Entry>, plans: seq<Target>, force: bool, dryRun: bool, minutes: Option<int>,
                    i: nat, fate: Fate)
    requires i < |plans|
    ensures |Faring(c, log, plans, i + 1, force, dryRun, minutes, fate)|
            == |Faring(c, log, plans, i, force, dryRun, minutes, fate)|
               + if FaresAt(c, log, plans, i, force, dryRun, minutes, fate) then 1 else 0
  {
    hide FaresAt;
    CountGrows(Faring(c, log, plans, i, force, dryRun, minutes, fate),
               Faring(c, log, plans, i + 1, force, dryRun, minutes, fate), i,
               FaresAt(c, log, plans, i, force, dryRun, minutes, fate));
  }

  lemma CountGrows(before: set<nat>, after: set<nat>, i: nat, more: bool)
    requires i !in before && forall j: nat :: j in after <==> j in before || (more && j == i)
    ensures |after| == |before| + if more then 1 else 0
  {
    assert after == if more then before + {i} else before;
  }

  /** A retro-dispatch is a run of its single plans, so the window holds across whole batches. */
  lemma {:induction false} RetroAllIsARun(c: Settings, events: seq<Event>, plans: seq<Target>, force: bool,
                                          dryRun: bool, minutes: Option<int>)
    ensures RetroAll(c, Run(c, events), plans, force, dryRun, minutes)
            == Run(c, events + RetroEvents(plans, force, dryRun, minutes))
  {
    hide RetroMail;
    if plans == [] {
      assert events + RetroEvents(plans, force, dryRun, minutes) == events;
    } else {
      var n := |plans| - 1;
      RetroAllIsARun(c, events, plans[..n], force, dryRun, minutes);
      var all := events + RetroEvents(plans, force, dryRun, minutes);
      var before := events + RetroEvents(plans[..n], force, dryRun, minutes);
      match plans[n]
      case Gone => assert all == before;
      case Target(at, o) =>
        assert all == before + [Retro(force, dryRun, minutes, at, o)];
        assert all[..|all| - 1] == before;
    }
  }

  function RetroEvents(plans: seq<Target>, force: bool, dryRun: bool, minutes: Option<int>): seq<Event> {
    if plans == [] then []
    else
      var n := |plans| - 1;
      RetroEvents(plans[..n], force, dryRun, minutes)
      + match plans[n]
        case Gone => []
        case Target(at, o) => [Retro(force, dryRun, minutes, at, o)]
  }
}
