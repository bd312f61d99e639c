/** Attendance recovery plans and their actions: evaluation, the student's updates and the
    completion of remedial slots, as steps of one state machine. Rows are never deleted, so the
    id of a row is its position. */
module RecoveryPlans {
  import opened AttendanceSnapshot
  import opened AttendanceRisk
  import opened Basics

  datatype PlanStatus = Active | Escalated | Recovered | PlanCancelled

  datatype ActionKind = RemedialSlot | FacultyNudge | OfficeHourInvite | CatchUpTask | ParentAlert

  datatype ActionStatus = Pending | Sent | Acknowledged | Completed | Skipped | Cancelled

  datatype Plan = Plan(student: nat, course: nat, risk: RiskLevel, status: PlanStatus, figures: Snapshot,
                       recommended: Option<nat>, parentAllowed: bool, updatedAt: int)

  /** A target of 0 stands for no make-up class, as in the lookup of the source. */
  datatype Action = Action(plan: nat, kind: ActionKind, target: nat, status: ActionStatus,
                           completedAt: Option<int>, note: Option<string>)

  datatype Desk = Desk(plans: seq<Plan>, actions: seq<Action>)

  datatype UpdateError = NotFound | NotPermitted | Unsupported | NoLongerActive

  datatype Updated = Ok(desk: Desk) | Refused(error: UpdateError)

  /** Everything one evaluation reads besides the two tables. */
  datatype Visit = Visit(student: nat, course: nat, eligible: bool, snapshot: Snapshot, settings: Settings,
                         nextMakeup: Option<nat>, parentReachable: bool, now: int)

  datatype Want = Want(kind: ActionKind, target: nat, initial: ActionStatus)

  predicate Open(p: Plan) {
    p.status == Active || p.status == Escalated
  }

  predicate Finished(s: ActionStatus) {
    s == Completed || s == Skipped
  }

  predicate StudentFacing(k: ActionKind) {
    k == RemedialSlot || k == OfficeHourInvite || k == CatchUpTask
  }

  // ----- lookups -----

  predicate OpenFor(p: Plan, student: nat, course: nat) {
    p.student == student && p.course == course && Open(p)
  }

  /** The open plan updated last; the later id wins a tie. */
  function ActivePlan(plans: seq<Plan>, student: nat, course: nat): (r: Option<nat>)
    ensures r.Some? ==> r.value < |plans| && OpenFor(plans[r.value], student, course)
    ensures r.None? ==> forall i :: 0 <= i < |plans| ==> !OpenFor(plans[i], student, course)
    ensures r.Some? ==> forall i :: 0 <= i < |plans| && OpenFor(plans[i], student, course) ==>
                                      plans[i].updatedAt < plans[r.value].updatedAt
                                      || (plans[i].updatedAt == plans[r.value].updatedAt && i <= r.value)
  {
    if plans == [] then None
    else
      var n := |plans| - 1;
      var best := ActivePlan(plans[..n], student, course);
      if OpenFor(plans[n], student, course) && (best.None? || plans[best.value].updatedAt <= plans[n].updatedAt)
      then Some(n) else best
  }

  /** Actions of one plan are told apart by kind, and remedial slots also by their class. */
  predicate Matches(a: Action, plan: nat, kind: ActionKind, target: nat) {
    a.plan == plan && a.kind == kind && (kind == RemedialSlot ==> a.target == target)
  }

  function FindAction(actions: seq<Action>, plan: nat, kind: ActionKind, target: nat): (r: Option<nat>)
    ensures r.Some? ==> r.value < |actions| && Matches(actions[r.value], plan, kind, target)
    ensures r.Some? ==> forall i :: 0 <= i < r.value ==> !Matches(actions[i], plan, kind, target)
    ensures r.None? ==> forall i :: 0 <= i < |actions| ==> !Matches(actions[i], plan, kind, target)
  {
    if actions == [] then None
    else
      var n := |actions| - 1;
      var first := FindAction(actions[..n], plan, kind, target);
      if first.Some? then first
      else if Matches(actions[n], plan, kind, target) then Some(n) else None
  }

  // ----- one step of each operation -----

  function Reopened(a: Action, w: Want): Action {
    if a.status == Cancelled then a.(target := w.target, status := w.initial, completedAt := None, note := None)
    else a.(target := w.target)
  }

  function Upsert(actions: seq<Action>, plan: nat, w: Want): seq<Action> {
    match FindAction(actions, plan, w.kind, w.target)
    case None => actions + [Action(plan, w.kind, w.target, w.initial, None, None)]
    case Some(i) => actions[i := Reopened(actions[i], w)]
  }

  function UpsertAll(actions: seq<Action>, plan: nat, wants: seq<Want>): seq<Action> {
    if wants == [] then actions
    else Upsert(UpsertAll(actions, plan, wants[..|wants| - 1]), plan, wants[|wants| - 1])
  }

  predicate Wanted(wants: seq<Want>, a: Action) {
    exists w :: w in wants && Matches(a, a.plan, w.kind, w.target)
  }

  /** What cancelling leaves of one action of the plan. */
  function Withdrawn(a: Action, plan: nat, keep: bool): Action {
    if a.plan == plan && !keep && !Finished(a.status) then a.(status := Cancelled) else a
  }

  function CancelUnused(actions: seq<Action>, plan: nat, wants: seq<Want>): seq<Action> {
    seq(|actions|, i requires 0 <= i < |actions| => Withdrawn(actions[i], plan, Wanted(wants, actions[i])))
  }

  function Close(d: Desk, plan: nat, now: int): Desk
    requires plan < |d.plans|
  {
    Desk(d.plans[plan := d.plans[plan].(status := Recovered, updatedAt := now)], CancelUnused(d.actions, plan, []))
  }

  /** The interventions a severity calls for. */
  function Wants(risk: RiskLevel, nextMakeup: Option<nat>, parentAllowed: bool): seq<Want> {
    [Want(FacultyNudge, 0, Sent)]
    + (if nextMakeup.Some? then [Want(RemedialSlot, nextMakeup.value, Pending)] else [])
    + (if risk != Watch then [Want(OfficeHourInvite, 0, Pending), Want(CatchUpTask, 0, Pending)] else [])
    + (if parentAllowed then [Want(ParentAlert, 0, Sent)] else [])
  }

  function ParentAllowed(v: Visit, risk: RiskLevel): bool {
    v.parentReachable && risk == Critical
  }

  function AssessedPlan(v: Visit, risk: RiskLevel): Plan {
    Plan(v.student, v.course, risk, if risk == Critical then Escalated else Active, v.snapshot, v.nextMakeup,
         ParentAllowed(v, risk), v.now)
  }

  function Intervene(d: Desk, v: Visit, risk: RiskLevel): Desk {
    var existing := ActivePlan(d.plans, v.student, v.course);
    var plan := if existing.Some? then existing.value else |d.plans|;
    var plans := if existing.Some? then d.plans[plan := AssessedPlan(v, risk)] else d.plans + [AssessedPlan(v, risk)];
    var wants := Wants(risk, v.nextMakeup, ParentAllowed(v, risk));
    Desk(plans, CancelUnused(UpsertAll(d.actions, plan, wants), plan, wants))
  }

  function Evaluate(d: Desk, v: Visit): Desk {
    var existing := ActivePlan(d.plans, v.student, v.course);
    var risk := RiskOf(v.settings, v.snapshot);
    if !v.eligible then d
    else if v.snapshot.delivered <= 0 || risk.None? then
      if existing.Some? then Close(d, existing.value, v.now) else d
    else Intervene(d, v, risk.value)
  }

  function StudentUpdate(d: Desk, action: nat, student: nat, status: ActionStatus, note: Option<string>,
                         now: int): Updated {
    if action >= |d.actions| then Refused(NotFound) else
    var a := d.actions[action];
    if a.plan >= |d.plans| || d.plans[a.plan].student != student then Refused(NotPermitted)
    else if !StudentFacing(a.kind) then Refused(NotPermitted)
    else if status != Acknowledged && status != Completed then Refused(Unsupported)
    else if a.status == Cancelled || a.status == Skipped then Refused(NoLongerActive)
    else
      Ok(d.(actions := d.actions[action := a.(status := status,
                                              completedAt := if status == Completed then Some(now) else a.completedAt,
                                              note := if note.Some? then note else a.note)]))
  }

  predicate AttendsSlot(plans: seq<Plan>, a: Action, student: nat, makeup: nat) {
    && a.plan < |plans| && plans[a.plan].student == student && Open(plans[a.plan])
    && a.kind == RemedialSlot && a.target == makeup
  }

  const ATTENDED_NOTE := "Student attended the suggested remedial session."

  function Attend(plans: seq<Plan>, a: Action, student: nat, makeup: nat, now: int): Action {
    if AttendsSlot(plans, a, student, makeup) && a.status != Completed
    then a.(status := Completed, completedAt := Some(now), note := Some(ATTENDED_NOTE)) else a
  }

  function CompleteRemedial(d: Desk, student: nat, makeup: nat, now: int): Desk {
    d.(actions := seq(|d.actions|, i requires 0 <= i < |d.actions| =>
                        Attend(d.plans, d.actions[i], student, makeup, now)))
  }

  datatype Step =
    | EvaluateStep(visit: Visit)
    | UpdateStep(action: nat, student: nat, status: ActionStatus, note: Option<string>, now: int)
    | RemedialStep(student: nat, makeup: nat, now: int)

  function Apply(d: Desk, s: Step): Desk {
    match s
    case EvaluateStep(v) => Evaluate(d, v)
    case UpdateStep(action, student, status, note, now) =>
      (match StudentUpdate(d, action, student, status, note, now)
       case Ok(d') => d'
       case Refused(_) => d)
    case RemedialStep(student, makeup, now) => CompleteRemedial(d, student, makeup, now)
  }

  function Run(d: Desk, steps: seq<Step>): Desk {
    if steps == [] then d else Apply(Run(d, steps[..|steps| - 1]), steps[|steps| - 1])
  }

  // ----- the invariant of every run -----

  ghost predicate OneOpenPlan(plans: seq<Plan>) {
    forall i, j :: 0 <= i < j < |plans| && Open(plans[i]) && Open(plans[j]) ==>
      plans[i].student != plans[j].student || plans[i].course != plans[j].course
  }

  ghost predicate EscalatedWhenCritical(plans: seq<Plan>) {
    forall i :: 0 <= i < |plans| && Open(plans[i]) ==> (plans[i].status == Escalated <==> plans[i].risk == Critical)
  }

  predicate SameKind(a: Action, b: Action) {
    Matches(a, b.plan, b.kind, b.target)
  }

  ghost predicate NoDuplicates(actions: seq<Action>) {
    forall i, j :: 0 <= i < j < |actions| ==> !SameKind(actions[i], actions[j])
  }

  ghost predicate Owned(d: Desk) {
    forall i :: 0 <= i < |d.actions| ==> d.actions[i].plan < |d.plans|
  }

  ghost predicate CompletedIsDated(actions: seq<Action>) {
    forall i :: 0 <= i < |actions| && actions[i].status == Completed ==> actions[i].completedAt.Some?
  }

  /** What may remain on the actions of a recovered plan. */
  predicate Settled(a: Action) {
    a.status != Pending && a.status != Sent && (a.status == Acknowledged ==> a.completedAt.Some?)
  }

  ghost predicate RecoveredIsSettled(d: Desk) {
    forall i ::
      0 <= i < |d.actions| && d.actions[i].plan < |d.plans| && d.plans[d.actions[i].plan].status == Recovered ==>
        Settled(d.actions[i])
  }

  ghost predicate Inv(d: Desk) {
    && Owned(d)
    && OneOpenPlan(d.plans)
    && EscalatedWhenCritical(d.plans)
    && NoDuplicates(d.actions)
    && CompletedIsDated(d.actions)
    && RecoveredIsSettled(d)
  }

  // ----- upserting -----

  /** What one upsert or one cancellation may do to a row that is already there. */
  ghost predicate Kept(before: seq<Action>, after: seq<Action>, plan: nat) {
    && |before| <= |after|
    && (forall i :: 0 <= i < |before| ==> SameKind(after[i], before[i]))
    && (forall i :: 0 <= i < |before| && before[i].plan != plan ==> after[i] == before[i])
    && (forall i :: 0 <= i < |before| && Finished(before[i].status) ==>
                      after[i].status == before[i].status && after[i].completedAt == before[i].completedAt
                      && after[i].note == before[i].note)
    && (forall i :: |before| <= i < |after| ==> after[i].plan == plan)
  }

  lemma KeptTransitive(a: seq<Action>, b: seq<Action>, c: seq<Action>, plan: nat)
    requires Kept(a, b, plan) && Kept(b, c, plan)
    ensures Kept(a, c, plan)
  {
  }

  ghost predicate PlainWants(wants: seq<Want>) {
    forall w :: w in wants ==> w.initial == Pending || w.initial == Sent
  }

  lemma {:induction false} UpsertAllKeeps(actions: seq<Action>, plan: nat, wants: seq<Want>)
    requires NoDuplicates(actions) && CompletedIsDated(actions) && PlainWants(wants)
    ensures Kept(actions, UpsertAll(actions, plan, wants), plan)
    ensures NoDuplicates(UpsertAll(actions, plan, wants)) && CompletedIsDated(UpsertAll(actions, plan, wants))
  {
    if wants != [] {
      var n := |wants| - 1;
      var before := UpsertAll(actions, plan, wants[..n]);
      assert wants[n] in wants;
      assert forall w :: w in wants[..n] ==> w in wants;
      UpsertAllKeeps(actions, plan, wants[..n]);
      KeptTransitive(actions, before, UpsertAll(actions, plan, wants), plan);
    }
  }

  lemma CancelKeeps(actions: seq<Action>, plan: nat, wants: seq<Want>)
    requires NoDuplicates(actions) && CompletedIsDated(actions)
    ensures Kept(actions, CancelUnused(actions, plan, wants), plan)
    ensures NoDuplicates(CancelUnused(actions, plan, wants)) && CompletedIsDated(CancelUnused(actions, plan, wants))
  {
  }

  // ----- each operation keeps the invariant -----

  lemma WantsArePlain(risk: RiskLevel, nextMakeup: Option<nat>, parentAllowed: bool)
    ensures PlainWants(Wants(risk, nextMakeup, parentAllowed))
  {
  }

  lemma KeptOwned(before: seq<Action>, after: seq<Action>, plan: nat, n: nat)
    requires Kept(before, after, plan) && plan < n
    requires forall i :: 0 <= i < |before| ==> before[i].plan < n
    ensures forall i :: 0 <= i < |after| ==> after[i].plan < n
  {
    forall i | 0 <= i < |after|
      ensures after[i].plan < n
    {
      assert i < |before| ==> SameKind(after[i], before[i]);
    }
  }

  lemma IntervenePlans(d: Desk, v: Visit, risk: RiskLevel)
    requires OneOpenPlan(d.plans) && EscalatedWhenCritical(d.plans)
    ensures OneOpenPlan(Intervene(d, v, risk).plans) && EscalatedWhenCritical(Intervene(d, v, risk).plans)
  {
  }

  lemma ClosePlans(d: Desk, plan: nat, now: int)
    requires plan < |d.plans| && OneOpenPlan(d.plans) && EscalatedWhenCritical(d.plans)
    ensures OneOpenPlan(Close(d, plan, now).plans) && EscalatedWhenCritical(Close(d, plan, now).plans)
  {
  }

  /** Rows of other plans are untouched, so their settlement is too. */
  lemma KeptSettled(d: Desk, after: Desk, plan: nat)
    requires Owned(d) && RecoveredIsSettled(d)
    requires Kept(d.actions, after.actions, plan) && |d.plans| <= |after.plans| && plan < |after.plans|
    requires forall i :: 0 <= i < |d.plans| && i != plan ==> after.plans[i] == d.plans[i]
    requires after.plans[plan].status == Recovered ==> forall a :: a in after.actions && a.plan == plan ==> Settled(a)
    ensures RecoveredIsSettled(after)
  {
    forall i | 0 <= i < |after.actions| && after.actions[i].plan < |after.plans|
               && after.plans[after.actions[i].plan].status == Recovered
      ensures Settled(after.actions[i])
    {
      if after.actions[i].plan != plan {
        assert i < |d.actions| && SameKind(after.actions[i], d.actions[i]);
      }
    }
  }

  lemma InterveneKeepsInv(d: Desk, v: Visit, risk: RiskLevel)
    requires Inv(d)
    ensures Inv(Intervene(d, v, risk))
  {
    hide CancelUnused, UpsertAll, Wants, Kept, NoDuplicates, CompletedIsDated, OneOpenPlan, EscalatedWhenCritical;
    var existing := ActivePlan(d.plans, v.student, v.course);
    var plan := if existing.Some? then existing.value else |d.plans|;
    var wants := Wants(risk, v.nextMakeup, ParentAllowed(v, risk));
    var upserted := UpsertAll(d.actions, plan, wants);
    var after := Intervene(d, v, risk);
    IntervenePlans(d, v, risk);
    WantsArePlain(risk, v.nextMakeup, ParentAllowed(v, risk));
    UpsertAllKeeps(d.actions, plan, wants);
    CancelKeeps(upserted, plan, wants);
    KeptTransitive(d.actions, upserted, after.actions, plan);
    KeptOwned(d.actions, after.actions, plan, |after.plans|);
    KeptSettled(d, after, plan);
  }

  lemma ClosedIsSettled(actions: seq<Action>, plan: nat)
    requires CompletedIsDated(actions)
    ensures forall a :: a in CancelUnused(actions, plan, []) && a.plan == plan ==> Settled(a)
  {
  }

  lemma CloseKeepsInv(d: Desk, plan: nat, now: int)
    requires Inv(d) && plan < |d.plans|
    ensures Inv(Close(d, plan, now))
  {
    hide CancelUnused, Kept, NoDuplicates, CompletedIsDated, OneOpenPlan, EscalatedWhenCritical;
    var after := Close(d, plan, now);
    ClosePlans(d, plan, now);
    CancelKeeps(d.actions, plan, []);
    ClosedIsSettled(d.actions, plan);
    KeptOwned(d.actions, after.actions, plan, |after.plans|);
    KeptSettled(d, after, plan);
  }

  lemma EvaluateKeepsInv(d: Desk, v: Visit)
    requires Inv(d)
    ensures Inv(Evaluate(d, v))
  {
    hide Inv, Intervene, Close, RiskOf;
    var existing := ActivePlan(d.plans, v.student, v.course);
    var risk := RiskOf(v.settings, v.snapshot);
    if existing.Some? {
      CloseKeepsInv(d, existing.value, v.now);
    }
    if risk.Some? {
      InterveneKeepsInv(d, v, risk.value);
    }
  }

  lemma StudentUpdateKeepsInv(d: Desk, action: nat, student: nat, status: ActionStatus, note: Option<string>, now: int)
    requires Inv(d)
    ensures var r := StudentUpdate(d, action, student, status, note, now); r.Ok? ==> Inv(r.desk)
  {
    var r := StudentUpdate(d, action, student, status, note, now);
    if r.Ok? {
      assert forall i :: 0 <= i < |d.actions| ==> SameKind(r.desk.actions[i], d.actions[i]);
      assert r.desk.actions[action].plan == d.actions[action].plan;
      assert NoDuplicates(r.desk.actions);
    }
  }

  lemma RemedialKeepsInv(d: Desk, student: nat, makeup: nat, now: int)
    requires Inv(d)
    ensures Inv(CompleteRemedial(d, student, makeup, now))
  {
    var after := CompleteRemedial(d, student, makeup, now);
    assert forall i :: 0 <= i < |d.actions| ==> SameKind(after.actions[i], d.actions[i]);
    assert NoDuplicates(after.actions);
  }

  /** Every run of evaluations, student updates and remedial completions keeps the invariant. */
  lemma {:induction false} RunKeepsInv(d: Desk, steps: seq<Step>)
    requires Inv(d)
    ensures Inv(Run(d, steps))
  {
    hide Inv, Evaluate, StudentUpdate, CompleteRemedial;
    if steps != [] {
      var n := |steps| - 1;
      RunKeepsInv(d, steps[..n]);
      var before := Run(d, steps[..n]);
      match steps[n]
      case EvaluateStep(v) => EvaluateKeepsInv(before, v);
      case UpdateStep(action, student, status, note, now) =>
        StudentUpdateKeepsInv(before, action, student, status, note, now);
      case RemedialStep(student, makeup, now) => RemedialKeepsInv(before, student, makeup, now);
    }
  }

  lemma FreshDesk()
    ensures Inv(Desk([], []))
  {
  }

  // ----- what one evaluation achieves -----

  ghost predicate SamePlan(p: Plan, q: Plan) {
    p.student == q.student && p.course == q.course
  }

  /** An evaluation touches no other pair's plan and no action of another plan, and it never alters
      the status, the completion time or the note of a completed or skipped action. */
  lemma EvaluateFrame(d: Desk, v: Visit)
    requires Inv(d)
    ensures var after := Evaluate(d, v);
            && |d.plans| <= |after.plans|
            && (forall i :: 0 <= i < |d.plans| && !OpenFor(d.plans[i], v.student, v.course) ==>
                              after.plans[i] == d.plans[i])
            && (forall i :: 0 <= i < |d.plans| ==> SamePlan(after.plans[i], d.plans[i]))
            && |d.actions| <= |after.actions|
            && (forall i :: 0 <= i < |d.actions| && !OpenFor(d.plans[d.actions[i].plan], v.student, v.course) ==>
                              after.actions[i] == d.actions[i])
            && (forall i :: 0 <= i < |d.actions| && Finished(d.actions[i].status) ==>
                              after.actions[i].status == d.actions[i].status
                              && after.actions[i].completedAt == d.actions[i].completedAt
                              && after.actions[i].note == d.actions[i].note)
  {
    var existing := ActivePlan(d.plans, v.student, v.course);
    var plan := if existing.Some? then existing.value else |d.plans|;
    var after := Evaluate(d, v);
    EvaluateKept(d, v, plan);
    forall i | 0 <= i < |d.actions| && !OpenFor(d.plans[d.actions[i].plan], v.student, v.course)
      ensures after.actions[i] == d.actions[i]
    {
      assert d.actions[i].plan != plan;
    }
  }

  lemma EvaluateKept(d: Desk, v: Visit, plan: nat)
    requires Inv(d)
    requires var existing := ActivePlan(d.plans, v.student, v.course);
             plan == if existing.Some? then existing.value else |d.plans|
    ensures Kept(d.actions, Evaluate(d, v).actions, plan)
  {
    hide CancelUnused, UpsertAll, Wants, Kept, NoDuplicates, CompletedIsDated, OneOpenPlan, EscalatedWhenCritical,
         RiskOf;
    KeptItself(d.actions, plan);
    CancelKeeps(d.actions, plan, []);
    var risk := RiskOf(v.settings, v.snapshot);
    if risk.Some? {
      var wants := Wants(risk.value, v.nextMakeup, ParentAllowed(v, risk.value));
      var upserted := UpsertAll(d.actions, plan, wants);
      WantsArePlain(risk.value, v.nextMakeup, ParentAllowed(v, risk.value));
      UpsertAllKeeps(d.actions, plan, wants);
      CancelKeeps(upserted, plan, wants);
      KeptTransitive(d.actions, upserted, CancelUnused(upserted, plan, wants), plan);
    }
  }

  lemma KeptItself(actions: seq<Action>, plan: nat)
    ensures Kept(actions, actions, plan)
  {
  }

  /** An eligible evaluation leaves an open plan for the pair exactly when it finds a risk, and the
      plan carries that risk and the new figures. */
  lemma EvaluateOutcome(d: Desk, v: Visit)
    requires Inv(d) && v.eligible
    ensures var after := Evaluate(d, v);
            var open := ActivePlan(after.plans, v.student, v.course);
            var risk := RiskOf(v.settings, v.snapshot);
            && (open.Some? <==> v.snapshot.delivered > 0 && risk.Some?)
            && (open.Some? ==> after.plans[open.value] == AssessedPlan(v, risk.value))
  {
    hide RiskOf;
    var existing := ActivePlan(d.plans, v.student, v.course);
    var after := Evaluate(d, v);
    var open := ActivePlan(after.plans, v.student, v.course);
    var plan := if existing.Some? then existing.value else |d.plans|;
    if v.snapshot.delivered > 0 && RiskOf(v.settings, v.snapshot).Some? {
      assert OpenFor(after.plans[plan], v.student, v.course);
      IntervenePlans(d, v, RiskOf(v.settings, v.snapshot).value);
    }
  }

  /** The same by the figures themselves: when there is an open plan after an eligible evaluation, what
      it says, and that it is escalated exactly at the critical thresholds. */
  lemma OpenPlanByFigures(d: Desk, v: Visit)
    requires Inv(d) && v.eligible
    ensures var after := Evaluate(d, v);
            var open := ActivePlan(after.plans, v.student, v.course);
            var c, s := v.settings, v.snapshot;
            && (open.Some? <==>
                  && s.delivered > 0 && Judged(c, s)
                  && (Percent(s) < WatchThreshold(c) || Percent(s) <= HighThreshold(c)
                      || s.consecutive >= WatchAbsences(c)))
            && (open.Some? ==>
                  var p := after.plans[open.value];
                  var critical := Percent(s) <= CriticalThreshold(c) || s.consecutive >= CriticalAbsences(c);
                  var high := Percent(s) <= HighThreshold(c) || s.consecutive >= HighAbsences(c);
                  && p.student == v.student && p.course == v.course && p.figures == s && p.updatedAt == v.now
                  && p.recommended == v.nextMakeup && p.parentAllowed == (v.parentReachable && critical)
                  && p.status == (if critical then Escalated else Active)
                  && p.risk == if critical then Critical else if high then High else Watch)
  {
    EvaluateOutcome(d, v);
    SeverityIsExact(v.settings, v.snapshot);
    hide RiskOf, Evaluate, Percent, WatchThreshold, HighThreshold, CriticalThreshold;
  }

  /** Nothing happens without eligibility. When an eligible evaluation finds no risk, the pair's open plan
      is recovered, its unfinished actions are cancelled, and nothing else changes. */
  lemma NoRiskCloses(d: Desk, v: Visit)
    ensures !v.eligible ==> Evaluate(d, v) == d
    ensures v.eligible && (v.snapshot.delivered <= 0 || RiskOf(v.settings, v.snapshot).None?) ==>
              var after, existing := Evaluate(d, v), ActivePlan(d.plans, v.student, v.course);
              if existing.None? then after == d
              else
                && |after.plans| == |d.plans| && |after.actions| == |d.actions|
                && (forall i :: 0 <= i < |d.plans| ==>
                      after.plans[i] == if i == existing.value then d.plans[i].(status := Recovered, updatedAt := v.now)
                                        else d.plans[i])
                && (forall i :: 0 <= i < |d.actions| ==>
                      after.actions[i] == if d.actions[i].plan == existing.value && d.actions[i].status != Completed
                                             && d.actions[i].status != Skipped
                                          then d.actions[i].(status := Cancelled) else d.actions[i])
  {
    hide RiskOf, Intervene;
  }

  /** The plan has an action for the want that is not cancelled. */
  ghost predicate Live(actions: seq<Action>, plan: nat, w: Want) {
    exists i :: 0 <= i < |actions| && Matches(actions[i], plan, w.kind, w.target) && actions[i].status != Cancelled
  }

  lemma UpsertMakesLive(actions: seq<Action>, plan: nat, w: Want, other: Want)
    requires w.initial != Cancelled
    ensures Live(Upsert(actions, plan, w), plan, w)
    ensures Live(actions, plan, other) ==> Live(Upsert(actions, plan, w), plan, other)
  {
    var after := Upsert(actions, plan, w);
    var found := FindAction(actions, plan, w.kind, w.target);
    var at := if found.Some? then found.value else |actions|;
    assert Matches(after[at], plan, w.kind, w.target) && after[at].status != Cancelled;
    if Live(actions, plan, other) {
      var i :| 0 <= i < |actions| && Matches(actions[i], plan, other.kind, other.target)
        && actions[i].status != Cancelled;
      assert Matches(after[i], plan, other.kind, other.target) && after[i].status != Cancelled;
    }
  }

  lemma {:induction false} UpsertAllMakesLive(actions: seq<Action>, plan: nat, wants: seq<Want>, w: Want)
    requires PlainWants(wants) && w in wants
    ensures Live(UpsertAll(actions, plan, wants), plan, w)
  {
    var n := |wants| - 1;
    assert wants[n] in wants;
    UpsertMakesLive(UpsertAll(actions, plan, wants[..n]), plan, wants[n], w);
    if w != wants[n] {
      assert forall u :: u in wants[..n] ==> u in wants;
      UpsertAllMakesLive(actions, plan, wants[..n], w);
    }
  }

  lemma CancelKeepsWantedLive(actions: seq<Action>, plan: nat, wants: seq<Want>, w: Want)
    requires w in wants && Live(actions, plan, w)
    ensures Live(CancelUnused(actions, plan, wants), plan, w)
  {
    var i :| 0 <= i < |actions| && Matches(actions[i], plan, w.kind, w.target) && actions[i].status != Cancelled;
    assert Wanted(wants, actions[i]);
    var after := CancelUnused(actions, plan, wants);
    assert Matches(after[i], plan, w.kind, w.target) && after[i].status != Cancelled;
  }

  /** After an intervention the plan's uncancelled actions are exactly the wanted ones, apart from
      what was already completed or skipped. */
  lemma InterventionIsExact(d: Desk, v: Visit, risk: RiskLevel)
    ensures var existing := ActivePlan(d.plans, v.student, v.course);
            var plan := if existing.Some? then existing.value else |d.plans|;
            var wants := Wants(risk, v.nextMakeup, ParentAllowed(v, risk));
            var after := Intervene(d, v, risk).actions;
            && (forall w :: w in wants ==> Live(after, plan, w))
            && (forall a :: a in after && a.plan == plan && a.status != Cancelled && !Finished(a.status) ==>
                Wanted(wants, a))
  {
    var existing := ActivePlan(d.plans, v.student, v.course);
    var plan := if existing.Some? then existing.value else |d.plans|;
    var wants := Wants(risk, v.nextMakeup, ParentAllowed(v, risk));
    var upserted := UpsertAll(d.actions, plan, wants);
    WantsArePlain(risk, v.nextMakeup, ParentAllowed(v, risk));
    forall w | w in wants
      ensures Live(CancelUnused(upserted, plan, wants), plan, w)
    {
      UpsertAllMakesLive(d.actions, plan, wants, w);
      CancelKeepsWantedLive(upserted, plan, wants, w);
    }
    OnlyWantedRemain(upserted, plan, wants);
  }

  lemma OnlyWantedRemain(actions: seq<Action>, plan: nat, wants: seq<Want>)
    ensures forall a :: a in CancelUnused(actions, plan, wants) ==>
              a.plan != plan || a.status == Cancelled || Finished(a.status) || Wanted(wants, a)
  {
  }

  // ----- what becomes of each row -----

  /** Student-facing actions start out pending, nudges and alerts as sent. */
  function InitialOf(k: ActionKind): ActionStatus {
    if StudentFacing(k) then Pending else Sent
  }

  /** The row keeps what the student did; only a cancelled one starts afresh, and only if wanted. */
  ghost predicate Carried(b: Action, a: Action, wanted: bool) {
    && SameKind(a, b)
    && a.target == (if wanted && b.kind != RemedialSlot then 0 else b.target)
    && if wanted && b.status == Cancelled then a.status == InitialOf(b.kind) && a.completedAt == None && a.note == None
       else a.status == b.status && a.completedAt == b.completedAt && a.note == b.note
  }

  ghost predicate UsualWants(wants: seq<Want>) {
    forall w :: w in wants ==> w.initial == InitialOf(w.kind) && (w.kind != RemedialSlot ==> w.target == 0)
  }

  lemma RowAfterUpsert(actions: seq<Action>, plan: nat, w: Want, i: nat)
    requires NoDuplicates(actions) && i < |actions| && actions[i].plan == plan && UsualWants([w])
    ensures i < |Upsert(actions, plan, w)|
    ensures Carried(actions[i], Upsert(actions, plan, w)[i], Matches(actions[i], plan, w.kind, w.target))
  {
    assert w in [w];
    var found := FindAction(actions, plan, w.kind, w.target);
    if found.Some? && Matches(actions[i], plan, w.kind, w.target) {
      assert SameKind(actions[found.value], actions[i]) && SameKind(actions[i], actions[found.value]);
      assert found.value == i;
    }
  }

  lemma {:induction false} RowAfterUpsertAll(actions: seq<Action>, plan: nat, wants: seq<Want>, i: nat)
    requires NoDuplicates(actions) && CompletedIsDated(actions) && UsualWants(wants)
    requires i < |actions| && actions[i].plan == plan
    ensures i < |UpsertAll(actions, plan, wants)|
    ensures Carried(actions[i], UpsertAll(actions, plan, wants)[i], Wanted(wants, actions[i]))
  {
    hide Upsert, NoDuplicates, CompletedIsDated;
    if wants != [] {
      var n := |wants| - 1;
      var before := UpsertAll(actions, plan, wants[..n]);
      assert wants == wants[..n] + [wants[n]];
      RowAfterUpsertAll(actions, plan, wants[..n], i);
      UpsertAllKeeps(actions, plan, wants[..n]);
      assert wants[n] in wants && forall w :: w in wants[..n] || w == wants[n] ==> w in wants;
      RowAfterUpsert(before, plan, wants[n], i);
      var now := Matches(actions[i], plan, wants[n].kind, wants[n].target);
      WantedMore(wants[..n], wants[n], actions[i]);
    }
  }

  lemma WantedMore(wants: seq<Want>, w: Want, a: Action)
    ensures Wanted(wants + [w], a) <==> Wanted(wants, a) || Matches(a, a.plan, w.kind, w.target)
  {
    if Wanted(wants, a) {
      var u :| u in wants && Matches(a, a.plan, u.kind, u.target);
      assert u in wants + [w];
    }
    assert w in wants + [w];
  }

  /** Which interventions a severity calls for: the nudge always, the remedial slot if a make-up class
      is coming, office hour and catch-up from the high level on, the parent alert when allowed. */
  lemma WantsByRisk(risk: RiskLevel, nextMakeup: Option<nat>, parentAllowed: bool, a: Action)
    ensures var wants := Wants(risk, nextMakeup, parentAllowed);
            && UsualWants(wants)
            && (Wanted(wants, a) <==>
                match a.kind
                case FacultyNudge => true
                case RemedialSlot => nextMakeup == Some(a.target)
                case OfficeHourInvite => risk != Watch
                case CatchUpTask => risk != Watch
                case ParentAlert => parentAllowed)
  {
    var nudge := [Want(FacultyNudge, 0, Sent)];
    var slot := if nextMakeup.Some? then [Want(RemedialSlot, nextMakeup.value, Pending)] else [];
    var work := if risk != Watch then [Want(OfficeHourInvite, 0, Pending), Want(CatchUpTask, 0, Pending)] else [];
    var alert := if parentAllowed then [Want(ParentAlert, 0, Sent)] else [];
    assert Wants(risk, nextMakeup, parentAllowed) == nudge + slot + work + alert;
    hide Wanted;
    WantedEither(nudge + slot + work, alert, a);
    WantedEither(nudge + slot, work, a);
    WantedEither(nudge, slot, a);
    WantedFew(nudge, a);
    WantedFew(slot, a);
    WantedFew(work, a);
    WantedFew(alert, a);
  }

  lemma WantedFew(wants: seq<Want>, a: Action)
    ensures wants == [] ==> !Wanted(wants, a)
    ensures |wants| == 1 ==> (Wanted(wants, a) <==> Matches(a, a.plan, wants[0].kind, wants[0].target))
    ensures |wants| == 2 ==> (Wanted(wants, a) <==> Matches(a, a.plan, wants[0].kind, wants[0].target)
                                                    || Matches(a, a.plan, wants[1].kind, wants[1].target))
  {
    if |wants| == 1 || |wants| == 2 {
      assert wants[0] in wants && wants[|wants| - 1] in wants;
    }
  }

  lemma WantedEither(some: seq<Want>, more: seq<Want>, a: Action)
    ensures Wanted(some + more, a) <==> Wanted(some, a) || Wanted(more, a)
  {
    if Wanted(some, a) {
      var w :| w in some && Matches(a, a.plan, w.kind, w.target);
      assert w in some + more;
    }
    if Wanted(more, a) {
      var w :| w in more && Matches(a, a.plan, w.kind, w.target);
      assert w in some + more;
    }
  }

  /** Row by row, an intervention keeps what the student did on wanted actions, revives cancelled
      wanted ones from the start, and cancels the unfinished rest of the plan. */
  lemma InterventionRowByRow(d: Desk, v: Visit, risk: RiskLevel, i: nat)
    requires Inv(d) && i < |d.actions| && Some(d.actions[i].plan) == ActivePlan(d.plans, v.student, v.course)
    ensures var b := d.actions[i];
            var after := Intervene(d, v, risk).actions;
            var wanted := Wanted(Wants(risk, v.nextMakeup, ParentAllowed(v, risk)), b);
            && i < |after|
            && if wanted || Finished(b.status) then Carried(b, after[i], wanted)
               else after[i] == b.(status := Cancelled)
  {
    hide Upsert, UpsertAll, NoDuplicates, CompletedIsDated, Wants, Wanted;
    var plan := d.actions[i].plan;
    var wants := Wants(risk, v.nextMakeup, ParentAllowed(v, risk));
    WantsByRisk(risk, v.nextMakeup, ParentAllowed(v, risk), d.actions[i]);
    RowAfterUpsertAll(d.actions, plan, wants, i);
    WantedAlike(wants, d.actions[i], UpsertAll(d.actions, plan, wants)[i]);
  }

  lemma WantedAlike(wants: seq<Want>, a: Action, b: Action)
    requires SameKind(b, a)
    ensures Wanted(wants, a) <==> Wanted(wants, b)
  {
    if Wanted(wants, a) {
      var w :| w in wants && Matches(a, a.plan, w.kind, w.target);
      assert Matches(b, b.plan, w.kind, w.target);
    }
    if Wanted(wants, b) {
      var w :| w in wants && Matches(b, b.plan, w.kind, w.target);
      assert Matches(a, a.plan, w.kind, w.target);
    }
  }

  /** A row that an upsert adds. */
  ghost predicate AddedFor(a: Action, plan: nat, wants: seq<Want>) {
    && a.plan == plan && a.completedAt == None && a.note == None && a.status == InitialOf(a.kind)
    && exists w :: w in wants && a.kind == w.kind && a.target == w.target
  }

  lemma {:induction false} AddedRows(actions: seq<Action>, plan: nat, wants: seq<Want>, i: nat)
    requires UsualWants(wants) && |actions| <= i < |UpsertAll(actions, plan, wants)|
    requires forall u, w :: u in wants && w in wants && u.kind == w.kind ==> u == w
    ensures AddedFor(UpsertAll(actions, plan, wants)[i], plan, wants)
  {
    if wants != [] {
      var n := |wants| - 1;
      var before := UpsertAll(actions, plan, wants[..n]);
      assert wants == wants[..n] + [wants[n]];
      if i < |before| {
        AddedRows(actions, plan, wants[..n], i);
        AddedStays(before, plan, wants[..n], wants[n], i);
      }
    }
  }

  lemma AddedStays(before: seq<Action>, plan: nat, wants: seq<Want>, w: Want, i: nat)
    requires i < |before| && AddedFor(before[i], plan, wants)
    requires forall u, t :: u in wants + [w] && t in wants + [w] && u.kind == t.kind ==> u == t
    ensures i < |Upsert(before, plan, w)| && AddedFor(Upsert(before, plan, w)[i], plan, wants + [w])
  {
    var u :| u in wants && before[i].kind == u.kind && before[i].target == u.target;
    assert u in wants + [w] && w in wants + [w];
  }

  /** The rows an intervention adds are wanted, fresh, and of a kind the plan did not have. */
  lemma InterventionAdds(d: Desk, v: Visit, risk: RiskLevel, i: nat)
    requires Inv(d) && |d.actions| <= i < |Intervene(d, v, risk).actions|
    ensures var existing := ActivePlan(d.plans, v.student, v.course);
            var plan := if existing.Some? then existing.value else |d.plans|;
            var wants := Wants(risk, v.nextMakeup, ParentAllowed(v, risk));
            var added := Intervene(d, v, risk).actions[i];
            && AddedFor(added, plan, wants)
            && forall k :: 0 <= k < |d.actions| ==> !SameKind(d.actions[k], added)
  {
    var existing := ActivePlan(d.plans, v.student, v.course);
    var plan := if existing.Some? then existing.value else |d.plans|;
    var wants := Wants(risk, v.nextMakeup, ParentAllowed(v, risk));
    var upserted, after := UpsertAll(d.actions, plan, wants), Intervene(d, v, risk).actions;
    assert after == CancelUnused(upserted, plan, wants);
    InterveneKeepsInv(d, v, risk);
    WantsOncePerKind(risk, v.nextMakeup, ParentAllowed(v, risk));
    UsualWantsPlain(wants);
    assert NoDuplicates(d.actions) && CompletedIsDated(d.actions) && NoDuplicates(after);
    hide Intervene, Inv, Upsert, UpsertAll, Wants, CancelUnused, NoDuplicates, CompletedIsDated, UsualWants, Kept,
         SameKind;
    CancelLength(upserted, plan, wants);
    AddedRows(d.actions, plan, wants, i);
    AddedIsWanted(upserted[i], plan, wants);
    WantedIsKept(upserted, plan, wants, i);
    UpsertAllKeeps(d.actions, plan, wants);
    CancelKeeps(upserted, plan, wants);
    KeptTransitive(d.actions, upserted, after, plan);
    forall k | 0 <= k < |d.actions|
      ensures !SameKind(d.actions[k], after[i])
    {
      KeptKind(d.actions, after, plan, k);
      DistinctRows(after, d.actions, k, i);
    }
  }

  lemma CancelLength(actions: seq<Action>, plan: nat, wants: seq<Want>)
    ensures |CancelUnused(actions, plan, wants)| == |actions|
  {
  }

  lemma WantedIsKept(actions: seq<Action>, plan: nat, wants: seq<Want>, i: nat)
    requires i < |actions| && Wanted(wants, actions[i])
    ensures i < |CancelUnused(actions, plan, wants)| && CancelUnused(actions, plan, wants)[i] == actions[i]
  {
  }

  lemma KeptKind(before: seq<Action>, after: seq<Action>, plan: nat, k: nat)
    requires Kept(before, after, plan) && k < |before|
    ensures k < |after| && SameKind(after[k], before[k])
  {
  }

  lemma WantsOncePerKind(risk: RiskLevel, nextMakeup: Option<nat>, parentAllowed: bool)
    ensures var wants := Wants(risk, nextMakeup, parentAllowed);
            UsualWants(wants) && forall u, w :: u in wants && w in wants && u.kind == w.kind ==> u == w
  {
  }

  lemma UsualWantsPlain(wants: seq<Want>)
    requires UsualWants(wants)
    ensures PlainWants(wants)
  {
  }

  lemma AddedIsWanted(a: Action, plan: nat, wants: seq<Want>)
    requires AddedFor(a, plan, wants)
    ensures Wanted(wants, a)
  {
    var w :| w in wants && a.kind == w.kind && a.target == w.target;
    assert Matches(a, a.plan, w.kind, w.target);
  }

  lemma DistinctRows(after: seq<Action>, before: seq<Action>, k: nat, i: nat)
    requires NoDuplicates(after) && k < |before| <= i < |after| && SameKind(after[k], before[k])
    ensures !SameKind(before[k], after[i])
  {
    assert !SameKind(after[k], after[i]);
  }

  // ----- the student's own updates -----

  /** An update is refused for exactly one reason, in this order; an accepted one leaves the requested
      status, dates the action exactly if that is completed, replaces the note if one is given, and
      changes nothing else. */
  lemma StudentUpdateExactly(d: Desk, action: nat, student: nat, status: ActionStatus, note: Option<string>, now: int)
    requires Owned(d)
    ensures var r := StudentUpdate(d, action, student, status, note, now);
            var known := action < |d.actions|;
            var permitted := known && d.plans[d.actions[action].plan].student == student
                             && d.actions[action].kind != FacultyNudge && d.actions[action].kind != ParentAlert;
            var supported := status == Acknowledged || status == Completed;
            && (r == Refused(NotFound) <==> !known)
            && (r == Refused(NotPermitted) <==> known && !permitted)
            && (r == Refused(Unsupported) <==> permitted && !supported)
            && (r == Refused(NoLongerActive) <==>
                  permitted && supported
                  && (d.actions[action].status == Cancelled || d.actions[action].status == Skipped))
            && (r.Ok? ==>
                  var a, b := r.desk.actions, d.actions;
                  && r.desk.plans == d.plans && |a| == |b| && (forall i :: 0 <= i < |b| && i != action ==> a[i] == b[i])
                  && a[action].status == status && a[action].plan == b[action].plan && a[action].kind == b[action].kind
                  && a[action].target == b[action].target
                  && a[action].completedAt == (if status == Completed then Some(now) else b[action].completedAt)
                  && a[action].note == (if note.Some? then note else b[action].note))
  {
  }

  /** Attending a make-up class completes exactly the remedial slots for that class on open plans of that
      student, dated now unless they were completed before; every other row stays. */
  lemma RemedialRowByRow(d: Desk, student: nat, makeup: nat, now: int, i: nat)
    requires i < |d.actions| && d.actions[i].plan < |d.plans|
    ensures var after := CompleteRemedial(d, student, makeup, now);
            var b := d.actions[i];
            var p := d.plans[b.plan];
            && after.plans == d.plans && |after.actions| == |d.actions|
            && if p.student == student && (p.status == Active || p.status == Escalated)
                  && b.kind == RemedialSlot && b.target == makeup && b.status != Completed
               then && after.actions[i].status == Completed && after.actions[i].completedAt == Some(now)
                    && after.actions[i].note == Some("Student attended the suggested remedial session.")
                    && after.actions[i].plan == b.plan && after.actions[i].kind == RemedialSlot
                    && after.actions[i].target == makeup
               else after.actions[i] == b
  {
  }

  /** A recovered plan is never reopened or changed by any later step. */
  lemma {:induction false} RecoveredForGood(d: Desk, steps: seq<Step>, plan: nat)
    requires Inv(d) && plan < |d.plans| && d.plans[plan].status == Recovered
    ensures plan < |Run(d, steps).plans| && Run(d, steps).plans[plan] == d.plans[plan]
  {
    if steps != [] {
      var n := |steps| - 1;
      RecoveredForGood(d, steps[..n], plan);
      RunKeepsInv(d, steps[..n]);
      var before := Run(d, steps[..n]);
      match steps[n]
      case EvaluateStep(v) => EvaluateFrame(before, v);
      case UpdateStep(action, student, status, note, now) =>
      case RemedialStep(student, makeup, now) =>
    }
  }

  /** The student may take a completed action back to acknowledged; its completion time stays. */
  lemma CompletedMayBeReacknowledged(d: Desk, action: nat, now: int)
    requires Inv(d) && action < |d.actions|
    requires StudentFacing(d.actions[action].kind) && d.actions[action].status == Completed
    ensures var r := StudentUpdate(d, action, d.plans[d.actions[action].plan].student, Acknowledged, None, now);
            && r.Ok? && r.desk.actions[action].status == Acknowledged
            && r.desk.actions[action].completedAt == d.actions[action].completedAt
            && r.desk.actions[action].completedAt.Some?
  {
  }

  /** The step is an update of the action, by the student of its plan, to the given status. */
  predicate UpdatesTo(d: Desk, s: Step, action: nat, status: ActionStatus)
    requires action < |d.actions|
  {
    && s.UpdateStep? && s.action == action && s.status == status
    && d.actions[action].plan < |d.plans| && s.student == d.plans[d.actions[action].plan].student
    && StudentFacing(d.actions[action].kind)
  }

  /** A completed action stays completed under every step but one: it goes back exactly when the
      student of its plan acknowledges it, if it is one that students handle. */
  lemma LeavesCompletedExactly(d: Desk, s: Step, action: nat)
    requires Inv(d) && action < |d.actions| && d.actions[action].status == Completed
    ensures var after := Apply(d, s).actions;
            && action < |after|
            && (after[action].status != Completed <==> UpdatesTo(d, s, action, Acknowledged))
            && (after[action].status != Completed ==> after[action].status == Acknowledged)
  {
    match s
    case EvaluateStep(v) =>
      EvaluateFrame(d, v);
      hide Evaluate;
    case UpdateStep(updated, student, status, note, now) =>
    case RemedialStep(student, makeup, now) =>
  }

  // ----- the tables, updated in place -----

  class RecoveryDesk {
    var plans: seq<Plan>
    var actions: seq<Action>

    ghost function State(): Desk
      reads this
    {
      Desk(plans, actions)
    }

    constructor ()
      ensures State() == Desk([], [])
    {
      plans, actions := [], [];
    }

    method FindPlan(student: nat, course: nat) returns (best: Option<nat>)
      ensures best == ActivePlan(plans, student, course)
    {
      best := None;
      for i := 0 to |plans|
        invariant best == ActivePlan(plans[..i], student, course)
      {
        assert plans[..i + 1][..i] == plans[..i];
        if OpenFor(plans[i], student, course) && (best.None? || plans[best.value].updatedAt <= plans[i].updatedAt) {
          best := Some(i);
        }
      }
      assert plans[..|plans|] == plans;
    }

    method Find(plan: nat, kind: ActionKind, target: nat) returns (r: Option<nat>)
      ensures r == FindAction(actions, plan, kind, target)
    {
      for i := 0 to |actions|
        invariant FindAction(actions[..i], plan, kind, target) == None
      {
        assert actions[..i + 1][..i] == actions[..i];
        if Matches(actions[i], plan, kind, target) {
          FirstMatchStays(actions, i, plan, kind, target);
          return Some(i);
        }
      }
      assert actions[..|actions|] == actions;
      r := None;
    }

    method UpsertAction(plan: nat, w: Want)
      modifies this`actions
      ensures actions == Upsert(old(actions), plan, w)
    {
      var found := Find(plan, w.kind, w.target);
      if found.None? {
        actions := actions + [Action(plan, w.kind, w.target, w.initial, None, None)];
      } else {
        var a := actions[found.value].(target := w.target);
        if a.status == Cancelled {
          a := a.(status := w.initial, completedAt := None, note := None);
        }
        actions := actions[found.value := a];
      }
    }

    method CancelUnusedActions(plan: nat, wants: seq<Want>)
      modifies this`actions
      ensures actions == CancelUnused(old(actions), plan, wants)
    {
      for i := 0 to |actions|
        invariant |actions| == |old(actions)|
        invariant forall k :: 0 <= k < i ==>
          actions[k] == Withdrawn(old(actions)[k], plan, Wanted(wants, old(actions)[k]))
        invariant forall k :: i <= k < |actions| ==> actions[k] == old(actions)[k]
      {
        if actions[i].plan == plan && !Wanted(wants, actions[i]) && !Finished(actions[i].status) {
          actions := actions[i := actions[i].(status := Cancelled)];
        }
      }
    }

    method ClosePlan(plan: nat, now: int)
      requires plan < |plans|
      modifies this
      ensures State() == Close(old(State()), plan, now)
    {
      plans := plans[plan := plans[plan].(status := Recovered, updatedAt := now)];
      CancelUnusedActions(plan, []);
    }

    method EvaluateAttendanceRecovery(v: Visit)
      modifies this
      ensures State() == Evaluate(old(State()), v)
    {
      hide CancelUnused, RiskOf, Wants, Upsert;
      if !v.eligible {
        return;
      }
      var existing := FindPlan(v.student, v.course);
      var risk := RiskOf(v.settings, v.snapshot);
      if v.snapshot.delivered <= 0 || risk.None? {
        if existing.Some? {
          ClosePlan(existing.value, v.now);
        }
        return;
      }
      var parentAllowed := v.parentReachable && risk.value == Critical;
      var plan := AssessedPlan(v, risk.value);
      var id := |plans|;
      if existing.None? {
        plans := plans + [plan];
      } else {
        id := existing.value;
        plans := plans[id := plan];
      }
      var wants := Wants(risk.value, v.nextMakeup, parentAllowed);
      for k := 0 to |wants|
        invariant plans == Intervene(old(State()), v, risk.value).plans
        invariant actions == UpsertAll(old(actions), id, wants[..k])
      {
        assert wants[..k + 1][..k] == wants[..k];
        UpsertAction(id, wants[k]);
      }
      assert wants[..|wants|] == wants;
      CancelUnusedActions(id, wants);
    }

    method UpdateStudentAction(action: nat, student: nat, status: ActionStatus, note: Option<string>, now: int)
      returns (error: Option<UpdateError>)
      modifies this
      ensures match StudentUpdate(old(State()), action, student, status, note, now)
              case Ok(d) => error == None && State() == d
              case Refused(e) => error == Some(e) && State() == old(State())
    {
      if action >= |actions| {
        return Some(NotFound);
      }
      var a := actions[action];
      if a.plan >= |plans| || plans[a.plan].student != student {
        return Some(NotPermitted);
      }
      if !StudentFacing(a.kind) {
        return Some(NotPermitted);
      }
      if status != Acknowledged && status != Completed {
        return Some(Unsupported);
      }
      if a.status == Cancelled || a.status == Skipped {
        return Some(NoLongerActive);
      }
      a := a.(status := status);
      if status == Completed {
        a := a.(completedAt := Some(now));
      }
      if note.Some? {
        a := a.(note := note);
      }
      actions := actions[action := a];
      error := None;
    }

    method CompleteRemedialAction(student: nat, makeup: nat, now: int) returns (updated: nat)
      modifies this`actions
      ensures State() == CompleteRemedial(old(State()), student, makeup, now)
      ensures updated == |set i | 0 <= i < |actions| && actions[i] != old(actions)[i]|
    {
      hide AttendsSlot;
      updated := 0;
      ghost var touched: set<int> := {};
      for i := 0 to |actions|
        invariant |actions| == |old(actions)|
        invariant forall k :: 0 <= k < i ==> actions[k] == Attend(plans, old(actions)[k], student, makeup, now)
        invariant forall k :: i <= k < |actions| ==> actions[k] == old(actions)[k]
        invariant updated == |touched| && touched == set k | 0 <= k < i
                  && Attend(plans, old(actions)[k], student, makeup, now) != old(actions)[k]
      {
        var a := actions[i];
        if AttendsSlot(plans, a, student, makeup) && a.status != Completed {
          actions := actions[i := a.(status := Completed, completedAt := Some(now), note := Some(ATTENDED_NOTE))];
          updated := updated + 1;
          touched := touched + {i};
        }
      }
      assert touched == set k | 0 <= k < |actions| && actions[k] != old(actions)[k];
    }
  }

  lemma {:induction false} FirstMatchStays(actions: seq<Action>, i: nat, plan: nat, kind: ActionKind, target: nat)
    requires i < |actions| && Matches(actions[i], plan, kind, target)
    requires FindAction(actions[..i], plan, kind, target) == None
    ensures FindAction(actions, plan, kind, target) == Some(i)
  {
    var r := FindAction(actions, plan, kind, target);
    assert r.Some? ==> r.value <= i;
    assert forall k :: 0 <= k < i ==> actions[..i][k] == actions[k];
  }
}
