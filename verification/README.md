# Campus backend: a verified model

This project models the parts of the campus attendance backend that carry state over long runs, or
that compute quickly what a simple description also defines, and proves what they keep. One module
per component:

| module | what it models |
|---|---|
| `AttendanceCalendar`, `AttendanceSnapshot`, `AttendanceRisk` | merging timetable slots, submissions and records so that each class counts once; the severity of the result |
| `RecoveryPlans`, `RecoveryMail` | recovery plans and their actions as one state machine; the anti-spam windows of recovery mail |
| `RedisFailover` | the cyclic search for a live Redis instance inside one call |
| `Sessions`, `SyncGate` | refresh and access tokens over whole runs; the single-flight gate of the SQL request sync |
| `RealtimeHub` | the bounded filter for repeated events, fan-out and drop-oldest queues |
| `AttendanceLedger`, `Outbox` | the record table derived from the event log; delivery with retries |
| `RateLimiter`, `ErrorBudget` | bounded structures that stand for whole logs |
| `KeyRotation`, `IdAlignment` | rewrites of stored documents that must keep their meaning |
| `AcademicPolicy`, `FaceSequence` | promotion and section allocation; the one-pass decision over face frames |

How the modules are built. Code that updates state step by step is a class whose methods carry the
loops of the original; each method is proved equal to a function of its old state. Runs are sequences
of calls on those functions, and the main results are lemmas about all runs or all inputs. Database
tables are sequences, sets or maps held by the class; a row's position or key is its id. Days and
clock ticks are integers, percentages are exact rationals rounded half-even to hundredths, and clock
readings, settings, query results and the answers of foreign systems are parameters. Encryption,
hashing, random draws and signatures are ideal: a box opens only under its own key and associated
data, drawn values never repeat, and only issued access tokens are genuine.

Some results are about behaviour that differs from what names, comments or documentation suggest. The
model follows the code, and these places are stated exactly:

- Faculty recovery mail is announced as once a day per student and course (comment at
  line 952 of `app/attendance_recovery.py`); in the code a faculty mail about any course silences all of
  them. The course decides only when a faculty mail leaves the window between the course's check and the
  later check for any course (`FacultyMailExactly`, `FacultyMailIgnoresTheCourse`, `CourseDecidesInTheGap`,
  `GapExample`).
- An outbox row labelled failed is selected again for ever; the attempt cap only changes the label
  (`UnsentIsRetried`, `NeverGivesUp`).
- A completed recovery action may be taken back to acknowledged by the student
  (`CompletedMayBeReacknowledged`), and no other step takes it out of that status
  (`LeavesCompletedExactly`).
- An active Redis instance without a connection is not reconnected in place, however healthy it is. It is
  tried only after all the others, and only if there is another one to fail over to and an attempt is left
  when they have all failed: with n instances, when the number of other reachable ones is at least 1 and at
  most n - 2. `CallIsExact` says for every pool what a call returns; `DisconnectedStaysDown`,
  `LoneInstanceStaysDown` and `BusyOthersHideAHealthyOne` are cases of it.
- The attendance fallback counts classes still ahead: when the merge finds no class although there is a
  submission, the submitted slots count as delivered, and as missed (`EachClassCountedOnce`,
  `FallbackCountsClassesAhead`, `ClassAheadCountedExample`).
- A prebuilt event is published whatever the duplicate filter answers (`Publish`); the filter holds back
  only what comes from a backend (`DeliveredAgainOnlyWhenForgotten`).
- The id sweep conflicts exactly when a row's id is held by somebody outside the rows or of a later row
  (`SweepConflictsExactly`, `ExchangedIdsConflict`).
- The id sweep is idempotent exactly when no auth document is entangled with a later row
  (`SweepIsIdempotent`, `EntangledExample`).
- A rebuild of the record table keeps a creation time exactly when the first and the greatest event of
  the key were created together (`RebuildKeepsCreationTimeWhen`, `CreationTimeLostExample`).
- Key rotation keeps every field readable exactly when it does not rewrite the member that names the
  document's subject, and it never rechecks a value already under the active key
  (`ReadsAsBeforeExactly`, `CurrentIsNotRechecked`).
- The section policy does not recognize its own names from the suffix 10 on, and yet repeated calls
  keep sections in a base filled by admissions (`OwnNameRecognized`, `RepeatKeepsSection`); bases of
  which one is a prefix of the other share sections: while only the longer base has some, the shorter one's
  students are sent there as long as any has a free seat (`PrefixBaseShares`, `PrefixBaseExample`); a
  section may exceed its capacity exactly when all sections in use are full and the next bucket's name is
  itself in use (`CapacityKeptExactly`, `CapacityExceededExample`).
- Promotion is path independent except from a negative semester brought to exactly 0
  (`PromotionPathIndependent`); validated input never holds one (line 37 of `app/schemas.py`).

## Model

| member | source | states |
|---|---|---|
| `AttendanceCalendar.ClosedFormCountsDeliveredDays` | app/attendance_recovery.py:341-358 | the closed-form count of weekly classes is the number of days in the period with the schedule's weekday whose class has started, for every start date, weekday, start time and clock reading |
| `AttendanceCalendar.SteppedDays` | app/attendance_recovery.py:428-434 | stepping seven days at a time from the first class date meets exactly the days of that weekday |
| `AttendanceSnapshot.StepSchedule` | app/attendance_recovery.py:428-434 | the stepping loop adds the schedule's id to exactly the days on which it delivered a class |
| `AttendanceSnapshot.BuildAgenda` | app/attendance_recovery.py:427-434 | the agenda lists, per day and without repetition, exactly the started slots |
| `AttendanceSnapshot.IndexSubmissions` | app/attendance_recovery.py:398-406 | the later submission row wins for its slot, and the days with submissions are those of the slots |
| `AttendanceSnapshot.IndexRecords` | app/attendance_recovery.py:421-425 | a day is indexed exactly if it has a record, and shows a presence exactly if one of its records does |
| `AttendanceSnapshot.CountDay` | app/attendance_recovery.py:441-463 | one day's started slots are each counted once, present by their submission or, if alone that day, by a record |
| `AttendanceSnapshot.CountStartedSlots` | app/attendance_recovery.py:436-463 | after the first pass exactly the started slots are counted, days in any order |
| `AttendanceSnapshot.CountExtraSubmissions` | app/attendance_recovery.py:465-483 | after the second pass also exactly the submissions outside the started slots whose class is not still ahead |
| `AttendanceSnapshot.CountRecordDays` | app/attendance_recovery.py:485-496 | after the third pass also exactly the record days with no counted slot and no submission at all |
| `AttendanceSnapshot.CountTrailing` | app/attendance_recovery.py:521-525 | the backward walk counts exactly the days after the last attended one |
| `AttendanceSnapshot.ScheduleSumIsStartedSlots` | app/attendance_recovery.py:379-382 | the closed forms of all schedules add up to the number of slots the first pass counts |
| `AttendanceSnapshot.NothingMerged` | app/attendance_recovery.py:498-516 | attended classes never exceed delivered ones, so the clamp never fires, in the fallback branch too |
| `AttendanceSnapshot.FallBack` | app/attendance_recovery.py:498-503 | when the merge counts nothing, the fallback takes the larger of the record days and the submitted slots |
| `AttendanceSnapshot.CourseAttendanceSnapshot` | app/attendance_recovery.py:361-534 | the whole merge satisfies the declarative description of a snapshot of the evidence |
| `AttendanceRisk.SnapshotBalances` | app/attendance_recovery.py:514-534 | present and absent add up to delivered, the absence run is at most the absences, the percentage is at most 100 |
| `AttendanceSnapshot.SnapshotUnique` | app/attendance_recovery.py:361-534 | the declarative description holds of exactly one snapshot, whatever order passes and dictionaries take |
| `AttendanceRisk.EachClassCountedOnce` | app/attendance_recovery.py:427-503 | delivered is the sum of the closed forms, the counted extra submissions and the record-only days, which never overlap, exactly when the merge finds a class or there is no submission |
| `AttendanceRisk.FallbackCountsClassesAhead` | app/attendance_recovery.py:498-503 | otherwise nothing has started, every submission is for a class still ahead, and delivered is the positive count of the fallback |
| `AttendanceRisk.ClassAheadCountedExample` | app/attendance_recovery.py:498-516 | an instance: one submission approved before its class begins gives one class delivered and missed |
| `AttendanceRisk.RowOrderIrrelevant` | app/attendance_recovery.py:371-425 | permuting the rows the queries return does not change the snapshot |
| `AttendanceRisk.RoundedPercentMonotone` | app/attendance_recovery.py:517 | the rounded percentage does not fall when one more of the same classes is attended |
| `AttendanceRisk.RoundedPercentIsNearest` | app/attendance_recovery.py:517 | the percentage is the hundredth nearest to the exact one, the even one of two as near |
| `AttendanceRisk.SubmissionDecides` | app/attendance_recovery.py:448-463 | a class with a submission is attended exactly if the submission is verified or approved |
| `AttendanceRisk.RecordDecides` | app/attendance_recovery.py:456-496 | a class without one is attended exactly if it is the only started one of its day and a record of the day says so; a day known from records alone, exactly if one of them says so |
| `AttendanceRisk.SettingsAreHonoured` | app/attendance_recovery.py:117-188 | a percentage setting is kept between 1 and the level above and otherwise moved to the nearer end; an absence setting is never below the milder one |
| `AttendanceRisk.SeverityIsExact` | app/attendance_recovery.py:537-551 | each severity is reached exactly with enough evidence and the percentage or the absence run at its own threshold |
| `AttendanceRisk.SixtyPercentIsHigh` | app/attendance_recovery.py:547-548 | an instance: with the usual thresholds 60 percent is high, not critical |
| `AttendanceRisk.LevelsNested` | app/attendance_recovery.py:117-126 | the clamped thresholds are ordered, each severity implies the condition of the milder one, and exactly when no risk is found; which severity is found, `SeverityIsExact` says |
| `AttendanceRisk.SeverityMonotone` | app/attendance_recovery.py:537-551 | a better percentage and a shorter absence run over the same classes never raise the severity |
| `AttendanceRisk.ApprovalNeverRaisesSeverity` | app/attendance_recovery.py:361-551 | approving one submission with all else fixed never raises the severity, through merge, run, percentage and thresholds |
| `RecoveryPlans.ActivePlan` | app/attendance_recovery.py:1073-1086 | the open plan of the pair updated last, the later id winning a tie |
| `RecoveryPlans.FindAction` | app/attendance_recovery.py:1098-1112 | the first action of the plan with the kind and, for remedial slots, the target |
| `RecoveryPlans.RunKeepsInv` | app/attendance_recovery.py:1477-2231 | every run of evaluations, student updates and remedial completions keeps: one open plan per pair, escalated exactly when critical, no duplicate action, completed actions dated, recovered plans settled |
| `RecoveryPlans.FreshDesk` | app/attendance_recovery.py:1477-2231 | the empty tables keep the invariant, so every run from them does |
| `RecoveryPlans.EvaluateKeepsInv` | app/attendance_recovery.py:1477-1860 | one evaluation keeps the invariant |
| `RecoveryPlans.StudentUpdateKeepsInv` | app/attendance_recovery.py:2155-2191 | one student update keeps the invariant |
| `RecoveryPlans.RemedialKeepsInv` | app/attendance_recovery.py:2194-2231 | one remedial completion keeps the invariant |
| `RecoveryPlans.EvaluateFrame` | app/attendance_recovery.py:1432-1474 | an evaluation changes no other pair's plan or actions and never alters status, completion time or note of completed or skipped actions |
| `RecoveryPlans.EvaluateOutcome` | app/attendance_recovery.py:1535-1602 | an eligible evaluation leaves an open plan exactly when it finds a risk, with that risk and the new figures |
| `RecoveryPlans.OpenPlanByFigures` | app/attendance_recovery.py:1535-1602 | by figures and thresholds alone: when an open plan is there after an evaluation, its severity, that it is escalated exactly at the critical thresholds, and all it records |
| `RecoveryPlans.NoRiskCloses` | app/attendance_recovery.py:1452-1535 | without eligibility nothing happens; without a risk the pair's open plan is recovered, exactly its unfinished actions are cancelled, and no other row changes |
| `RecoveryPlans.InterventionIsExact` | app/attendance_recovery.py:1642-1811 | afterwards the plan's live actions are exactly the wanted ones, apart from completed or skipped ones |
| `RecoveryPlans.InterventionRowByRow` | app/attendance_recovery.py:1413-1449 | each row of the plan: progress on wanted actions stays, cancelled wanted ones start afresh, the unfinished rest is cancelled and otherwise kept |
| `RecoveryPlans.InterventionAdds` | app/attendance_recovery.py:1394-1412 | each row an intervention adds is for a wanted kind the plan did not have, with the status it starts with and nothing done yet |
| `RecoveryPlans.WantsByRisk` | app/attendance_recovery.py:1642-1810 | which interventions a severity calls for, and the status each starts with |
| `RecoveryPlans.RecoveredForGood` | app/attendance_recovery.py:1452-1474 | no later step changes or reopens a recovered plan |
| `RecoveryPlans.CompletedMayBeReacknowledged` | app/attendance_recovery.py:2171-2185 | a completed action goes back to acknowledged on request and keeps its completion time |
| `RecoveryPlans.LeavesCompletedExactly` | app/attendance_recovery.py:2163-2191 | a completed action leaves that status exactly under an update to acknowledged by its plan's own student, on an action students handle |
| `RecoveryPlans.StudentUpdateExactly` | app/attendance_recovery.py:2155-2191 | an update is refused for exactly one of four reasons, in order; an accepted one leaves the requested status, a date exactly if that is completed, the new note if there is one, and all else as it was |
| `RecoveryPlans.RemedialRowByRow` | app/attendance_recovery.py:2194-2231 | attending a make-up class completes exactly the remedial slots with that target on open plans of that student, dated now unless completed before; every other row stays |
| `RecoveryPlans.RecoveryDesk.FindPlan` | app/attendance_recovery.py:1073-1086 | the scan finds the plan the lookup describes |
| `RecoveryPlans.RecoveryDesk.UpsertAction` | app/attendance_recovery.py:1371-1429 | the row is added, or updated and revived only if cancelled |
| `RecoveryPlans.RecoveryDesk.CancelUnusedActions` | app/attendance_recovery.py:1432-1449 | exactly the plan's unwanted, unfinished actions are cancelled |
| `RecoveryPlans.RecoveryDesk.ClosePlan` | app/attendance_recovery.py:1452-1474 | the plan is recovered and its unfinished actions are cancelled |
| `RecoveryPlans.RecoveryDesk.EvaluateAttendanceRecovery` | app/attendance_recovery.py:1477-1860 | the tables after the call are those of the evaluation step, which `OpenPlanByFigures`, `NoRiskCloses`, `InterventionRowByRow` and `InterventionAdds` describe row by row |
| `RecoveryPlans.RecoveryDesk.UpdateStudentAction` | app/attendance_recovery.py:2155-2191 | the tables after the call are those of the update step; each refusal has its error and changes nothing |
| `RecoveryPlans.RecoveryDesk.CompleteRemedialAction` | app/attendance_recovery.py:2194-2231 | the tables after the call are those of the completion step, described by `RemedialRowByRow`; the answer counts the changed rows |
| `RecoveryMail.RunSpaced` | app/attendance_recovery.py:745-793 | in every run of evaluations, retro-dispatches (forced or not) and autopilot cycles, two mails logged for one student and channel are more than the channel's cool-down apart |
| `RecoveryMail.SafeSendLogsExactly` | app/attendance_recovery.py:745-793 | a mail is logged exactly for a known recipient with nothing logged in the window and a delivery that does not fail; the entry carries its student, channel, codes, suppressed mark and time |
| `RecoveryMail.DispatchExactly` | app/attendance_recovery.py:820-1004 | the log grows by the student's entry if that is due, then by the faculty's if that is due, each with its own codes, suppressed mark and time, and by nothing else |
| `RecoveryMail.RaisesExactly` | app/attendance_recovery.py:820-1004 | a dispatch raises exactly if it gets past the student's window and something breaks at once, or before the faculty's mail when there is a faculty to write to |
| `RecoveryMail.StudentMailExactly` | app/attendance_recovery.py:820-936 | when student mail is logged: known recipient, delivery, no break before, and a quiet window at both readings |
| `RecoveryMail.RetroIsExact` | app/attendance_recovery.py:1956-2017 | a retro-dispatch is a dispatch exactly if it is no dry run and is forced or outside both the student's window and the cool-down asked for or configured |
| `RecoveryMail.FatesExactly` | app/attendance_recovery.py:1966-2035 | a plan still there is skipped exactly if not forced and its student was written to within the window or the cool-down; otherwise it is eligible, and fails exactly if its dispatch raises |
| `RecoveryMail.CooldownsAreHonoured` | app/attendance_recovery.py:133-156 | configured cool-downs are kept from half an hour up, the retro one from the student's up, and each channel has its own |
| `RecoveryMail.OnlyTheWindowDecides` | app/attendance_recovery.py:1812-1848 | a new plan or a changed risk never gets a mail through the window; it spares a first look, which matters exactly when the window runs out between the two looks |
| `RecoveryMail.ForceKeepsTheWindow` | app/attendance_recovery.py:1990-2017 | a forced retro-dispatch inside the student's window writes nothing |
| `RecoveryMail.RetroNeverUndercuts` | app/attendance_recovery.py:1956-1997 | without force, nothing is sent within the longer of the student's window and the requested cool-down |
| `RecoveryMail.FacultyMailExactly` | app/attendance_recovery.py:820-1004 | when faculty mail is logged, for all clock readings: known recipient, delivery, no break, and the three windows each at its own reading |
| `RecoveryMail.CourseDecidesInTheGap` | app/attendance_recovery.py:953-1004 | otherwise ready mail is withheld exactly if a mail naming the course left the window between the two readings |
| `RecoveryMail.GapExample` | app/attendance_recovery.py:953-1004 | an instance: of two courses, one is silenced and the other mailed |
| `RecoveryMail.AnyCourseIsSilenced` | app/attendance_recovery.py:759-765 | a faculty mail inside the window silences every course |
| `RecoveryMail.FacultyMailIgnoresTheCourse` | app/attendance_recovery.py:950-1004 | unless a faculty mail leaves the window between the two readings, the course plays no part in whether faculty mail is logged |
| `RecoveryMail.SecondCourseIsSilenced` | app/attendance_recovery.py:950-1004 | an instance: a mail about one course silences another course's faculty on the same day |
| `RecoveryMail.RetroAllIsARun` | app/attendance_recovery.py:1966-2017 | a batch is a run of its single plans, so the spacing holds across batches |
| `RecoveryMail.MailDesk.SafeSendRecoveryEmail` | app/attendance_recovery.py:745-793 | the log after the call is that of the guarded send |
| `RecoveryMail.MailDesk.DispatchRecoveryCommunications` | app/attendance_recovery.py:820-1004 | the log after one dispatch to student and faculty is the one `DispatchExactly` describes, also when the dispatch raises on its way, and whether it does |
| `RecoveryMail.MailDesk.RetroSend` | app/attendance_recovery.py:1956-2035 | the log after the loop, and each counter as the number of plans faring so: eligible, skipped, failed; a dispatch that raises does not end the loop |
| `RedisFailover.FailoverFinds` | app/redis_dual_client.py:292-332 | failover settles on the nearest reachable instance ahead, and fails only if there is none |
| `RedisFailover.ProbeExactly` | app/redis_dual_client.py:261-332 | a probe answers exactly if a client is there or can be made and the ping works; what it records then: cleared, one failure more, or only the error, with a quota error remembered until a success |
| `RedisFailover.FailoverRowByRow` | app/redis_dual_client.py:292-332 | failover probes exactly the instances ahead up to the one it settles on and leaves all other records alone |
| `RedisFailover.FailoverApproaches` | app/redis_dual_client.py:292-332 | failover never passes the first decisive instance and shortens the cyclic distance to it |
| `RedisFailover.SearchIsExact` | app/redis_dual_client.py:378-405 | the loop ends with the first decisive instance's outcome exactly when the attempts left exceed the failovers that lead to it, and otherwise returns nothing |
| `RedisFailover.DistanceSuffices` | app/redis_dual_client.py:378-405 | more attempts than the cyclic distance to the first decisive instance always suffice |
| `RedisFailover.SearchFails` | app/redis_dual_client.py:378-405 | when the operation raises a Redis error on every instance within reach, no number of attempts returns a result |
| `RedisFailover.HealthCheckEffect` | app/redis_dual_client.py:334-367 | a health check moves the active index exactly back to a first instance that was down and answers again, and never probes the active one |
| `RedisFailover.HealthCheckRowByRow` | app/redis_dual_client.py:334-367 | a health check probes exactly the disconnected and the failing instances besides the active one |
| `RedisFailover.CheckRowByRow` | app/redis_dual_client.py:334-367 | within a minute of the last check a call probes nothing, and from then on exactly those instances |
| `RedisFailover.AttemptMarks` | app/redis_dual_client.py:389-405 | a success clears the active instance, a Redis error adds one failure to it, any other error leaves no trace; no other record changes |
| `RedisFailover.CallSucceeds` | app/redis_dual_client.py:378-405 | within as many attempts as instances, a call returns a result as soon as any instance can serve it, whether or not the health check moves the index first |
| `RedisFailover.CallIsExact` | app/redis_dual_client.py:378-405 | for every pool, with a health check due or not: which instance settles the call, that the call ends with its outcome, that nothing else is returned, and when the call ends for want of an instance |
| `RedisFailover.DisconnectedStaysDown` | app/redis_dual_client.py:378-388 | a disconnected active instance stays down, with any number of instances, when no other one can be brought into use |
| `RedisFailover.BusyOthersHideAHealthyOne` | app/redis_dual_client.py:378-405 | an instance: three reachable instances, of which the disconnected active one would serve, and the call still raises; with one other unreachable it is served |
| `RedisFailover.LoneInstanceStaysDown` | app/redis_dual_client.py:345-346 | the case of one instance: nothing changes at all |
| `RedisFailover.DualRedisManager.TryFailover` | app/redis_dual_client.py:292-332 | the cyclic loop leaves the pool of the failover step |
| `RedisFailover.DualRedisManager.PeriodicHealthCheck` | app/redis_dual_client.py:334-367 | the loop over instances, run only when due, and the time of the last check |
| `RedisFailover.DualRedisManager.GetActiveClient` | app/redis_dual_client.py:369-376 | the active connection after the check |
| `RedisFailover.DualRedisManager.ExecuteWithFailover` | app/redis_dual_client.py:378-405 | pool and answer of the whole retry loop |
| `Sessions.RunInv` | app/auth_utils.py:599-776 | every run of logins, rotations, requests, revocations and expiries keeps: spent tokens differ from the standing ones, superseded access ids stay revoked until their expiry |
| `Sessions.EmptyInv` | app/auth_utils.py:599-776 | the empty collections keep the invariant, so every run from them does |
| `Sessions.AcceptedAtMostOnce` | app/auth_utils.py:662-776 | in every run each refresh token is accepted by at most one rotation |
| `Sessions.SpentIsRefused` | app/auth_utils.py:670-684 | a refresh token that was accepted once is never accepted again |
| `Sessions.RotateOutcome` | app/auth_utils.py:662-776 | what a rotation answers for current, previous and other tokens, what it leaves behind, and that a missing, inactive or expired account ends the session |
| `Sessions.ReplayRevokesForGood` | app/auth_utils.py:676-682 | replaying the previous refresh token of an active session ends the session for every later run |
| `Sessions.LogoutForGood` | app/routers/auth.py:3215-3247 | logging out ends the session for every later run |
| `Sessions.DeadForGood` | app/auth_utils.py:461-471 | a dead session, revoked or gone, stays dead through every run |
| `Sessions.SupersededForGood` | app/auth_utils.py:823-831 | a superseded access id is refused for ever |
| `Sessions.CoveredForGood` | app/auth_utils.py:719-728 | an access id its session moved on from is in the revocation table until its own expiry at every later point, whatever becomes of the session |
| `Sessions.OneAccessTokenStands` | app/auth_utils.py:823-831 | at any moment at most one access token of a session is accepted |
| `Sessions.LoginGrants` | app/auth_utils.py:599-659 | after a login and any wait the access token stands exactly within its lifetime and serves a good account, and the refresh token is accepted exactly up to the end of its own; no other session changes |
| `Sessions.RotationGrants` | app/auth_utils.py:715-776 | a successful rotation hands out tokens good for the same times from now on |
| `Sessions.RequestExactly` | app/auth_utils.py:791-871 | a request is denied exactly if the token was never issued or has expired, is revoked, its session is missing, another user's, over or rotated on, or the account is not good; an expired password revokes exactly that session |
| `Sessions.RevokeAllExactly` | app/auth_utils.py:528-568 | each session of the user but the excepted one is revoked, and no other is touched |
| `Sessions.LogoutExactly` | app/routers/auth.py:3215-3247 | an unexpired token revokes exactly its session and its id is recorded at least until it expires; any other token changes nothing |
| `Sessions.DroppedRevocationRevivesNothing` | app/mongo.py:408-412 | the expiry index of the revocation table never revives a token |
| `Sessions.DroppedSessionWasOver` | app/mongo.py:402-406 | the expiry index of the session table takes nothing away once the refresh time is over |
| `Sessions.AuthStore.CreateSessionTokens` | app/auth_utils.py:599-659 | the store and the tokens after a login, whose worth `LoginGrants` states |
| `Sessions.AuthStore.RotateSessionTokens` | app/auth_utils.py:662-776 | the store and the answer of one rotation, error by error |
| `Sessions.AuthStore.Revoke` | app/auth_utils.py:509-525 | exactly the session is marked revoked |
| `Sessions.AuthStore.RevokeAccessToken` | app/auth_utils.py:481-506 | exactly the access id is recorded with its expiry |
| `Sessions.AuthStore.RevokeAllUserSessions` | app/auth_utils.py:528-568 | exactly the user's live sessions, but for the excepted one, are revoked and counted |
| `Sessions.AuthStore.GetCurrentUser` | app/auth_utils.py:791-871 | the checks of a request, in order, and the revocation on an expired password |
| `SyncGate.GateIsExact` | app/auth_utils.py:149-177 | the pruned gate answers as the whole history of begins and finishes would |
| `SyncGate.CacheIsExact` | app/auth_utils.py:149-177 | after every operation the pruned table holds exactly the last successes no older than the time to live |
| `SyncGate.SingleFlight` | app/auth_utils.py:158-177 | between two grants of a key there is a finish, and a success shuts the gate for the whole time to live |
| `SyncGate.SqlRequestSync.PruneCache` | app/auth_utils.py:149-155 | exactly the expired entries go |
| `SyncGate.SqlRequestSync.BeginRequest` | app/auth_utils.py:158-168 | the gate and the answer after one begin |
| `SyncGate.SqlRequestSync.FinishRequest` | app/auth_utils.py:171-177 | the gate after one finish |
| `RealtimeHub.FilterIsExact` | app/realtime_bus.py:524-541 | an id counts as seen exactly when its last tracking is at most the time to live ago and fewer than cap other ids were tracked since |
| `RealtimeHub.FilterStaysSmall` | app/realtime_bus.py:524-541 | the cache stays sorted by time, without repeated ids and within its cap |
| `RealtimeHub.DeliveredAgainOnlyWhenForgotten` | app/realtime_bus.py:486-541 | in every run an id published here or delivered from a backend is delivered from a backend again only more than the time to live later or after at least cap other ids |
| `RealtimeHub.UnnamedAndOwnEvents` | app/realtime_bus.py:507-541 | an event without an id is never noted and always delivered from elsewhere; the hub's own events are not delivered when they come back |
| `RealtimeHub.RunTrackIsTail` | app/realtime_bus.py:524-541 | the cache is always the young enough tail, at most cap long, of all ids by last tracking |
| `RealtimeHub.PlaceInOrder` | app/realtime_bus.py:533-541 | what follows an id in the recency order are exactly the ids tracked since |
| `RealtimeHub.QueueIsNewestPart` | app/realtime_bus.py:567-587 | a subscriber's queue is the newest part of the events it wants, in order, within its capacity, and nothing is lost while it keeps up |
| `RealtimeHub.WantsExactly` | app/realtime_bus.py:609-625 | who may see an event: the scopes must meet and the topics must meet, and either side may be for all |
| `RealtimeHub.BlanksDoNotCount` | app/realtime_bus.py:589-607 | blank scopes and topics are dropped, and with none left the event or subscriber is for all |
| `RealtimeHub.FanOutRowByRow` | app/realtime_bus.py:567-587 | each subscriber who may see the event gets it last, only a full queue losing its oldest entry; the others keep their queues |
| `RealtimeHub.AreaOfKind` | app/realtime_bus.py:642-661 | the inferred topic is an area exactly if the kind is its name or goes on from it with a dot, and otherwise system |
| `RealtimeHub.UntopicedGoesToItsArea` | app/realtime_bus.py:567-569 | an event without topics reaches exactly those who follow everything or the area its kind begins with (lines 642-660) |
| `RealtimeHub.RealtimeEventHub.TrackRecentEvent` | app/realtime_bus.py:524-541 | the answer is the one the whole tracking history gives |
| `RealtimeHub.RealtimeEventHub.PublishLocal` | app/realtime_bus.py:567-625 | every matching subscriber gets the event, the oldest entry making room in a full queue |
| `RealtimeHub.RealtimeEventHub.Subscribe` | app/realtime_bus.py:435-451 | a new subscriber under a new id, with at least ten places and default scopes and topics |
| `RealtimeHub.RealtimeEventHub.Publish` | app/realtime_bus.py:456-488 | the id is noted and every matching subscriber gets the event, whatever the filter knows |
| `RealtimeHub.RealtimeEventHub.OnBackendMessage` | app/realtime_bus.py:507-522 | an event of this instance, or one seen already, is not delivered again; any other is |
| `AttendanceLedger.RunInv` | app/attendance_ledger.py:145-178 | after any run of append-and-recompute a record exists exactly for keys with events and carries status, source and id of the greatest event by creation time and id |
| `AttendanceLedger.RecordIsGreatestEvent` | app/attendance_ledger.py:83-178 | after any run a key has a record exactly if it has an event, and the record carries status, source and id of an event no other of the key is later than |
| `AttendanceLedger.PostStoresTheEntry` | app/attendance_ledger.py:30-54 | a post changes nothing or adds exactly one event with the entry's token, key, status, source, actor and time; under a known token it adds none |
| `AttendanceLedger.PostDecidesTheRecord` | app/attendance_ledger.py:64-178 | a fresh entry no earlier than its key's events decides the record: status and source as posted, the marker in order of precedence, the earlier creation time; no other record changes |
| `AttendanceLedger.LogIsWhatWasTaken` | app/attendance_ledger.py:145-178 | the log of a run is its taken entries, one event each, in order |
| `AttendanceLedger.NoneIsLost` | app/attendance_ledger.py:30-80 | an entry with somebody in the faculty table is never lost: its token was taken |
| `AttendanceLedger.RecordSaysTheLastEntry` | app/attendance_ledger.py:83-178 | after any run a key's record carries status and source of its taken entry that is last by time and then by position |
| `AttendanceLedger.LatestIsGreatest` | app/attendance_ledger.py:90-99 | the event chosen is the greatest of its key by creation time and id |
| `AttendanceLedger.RecomputeEffect` | app/attendance_ledger.py:83-142 | a recomputation makes its key's record reflect the events and changes nothing else |
| `AttendanceLedger.RepeatedKeyChangesNothing` | app/attendance_ledger.py:30-54 | posting under a used event key changes no event and no value of any record |
| `AttendanceLedger.PostFailsWhenNobodyMarks` | app/attendance_ledger.py:64-80 | attribution fails exactly when event, course, existing record and faculty table name nobody |
| `AttendanceLedger.RebuildFromNothing` | app/attendance_ledger.py:181-231 | an unlimited rebuild from an empty table gives the same values, and fails exactly when some key cannot be attributed |
| `AttendanceLedger.RebuildInPlace` | app/attendance_ledger.py:181-231 | a rebuild of any part in place never fails and changes no value |
| `AttendanceLedger.RebuildFailsExactly` | app/attendance_ledger.py:64-80 | a rebuild fails exactly when a listed key without a record has a greatest event, a course and a faculty table that name nobody |
| `AttendanceLedger.ScopeRestoresTheTable` | app/attendance_ledger.py:181-231 | the unrestricted scoped recomputation with a limit that reaches all keys restores an emptied table |
| `AttendanceLedger.ScopeExactly` | app/attendance_ledger.py:190-206 | the keys in a scope are exactly those with an event that pass each filter given, both dates included |
| `AttendanceLedger.ListedInOrder` | app/attendance_ledger.py:208-217 | a listing goes by day, course and student; a key is left out only from a full listing and comes after all that is listed |
| `AttendanceLedger.RebuildKeepsCreationTimeWhen` | app/attendance_ledger.py:120-141 | the creation time survives a rebuild exactly when the first and the greatest event of the key were created together |
| `AttendanceLedger.CreationTimeLostExample` | app/attendance_ledger.py:120-141 | an instance: two events, and the rebuilt record has the later creation time |
| `AttendanceLedger.LedgerTables.AppendAttendanceEvent` | app/attendance_ledger.py:16-54 | the event, with what was posted in it, is added unless its key was used; the answer is the event of that key (`PostStoresTheEntry`) |
| `AttendanceLedger.LedgerTables.FindLatest` | app/attendance_ledger.py:90-99 | the scan finds the greatest event |
| `AttendanceLedger.LedgerTables.RecomputeAttendanceRecord` | app/attendance_ledger.py:83-142 | the tables after a recomputation, unchanged when attribution fails |
| `AttendanceLedger.LedgerTables.AppendEventAndRecompute` | app/attendance_ledger.py:145-178 | the tables after both steps, or as they were when attribution fails; what that makes of the record, `PostDecidesTheRecord` says |
| `AttendanceLedger.LedgerTables.ListKeys` | app/attendance_ledger.py:190-216 | the distinct keys of the scope by day, course and student, the first ones up to the limit |
| `AttendanceLedger.LedgerTables.RecomputeAttendanceScope` | app/attendance_ledger.py:181-231 | the listed keys are recomputed in order; a key that cannot be attributed ends the loop there, with the earlier ones done |
| `Outbox.RunTruthful` | app/outbox.py:106-156 | over any mix of enqueues and batches: sent exactly when the last dispatch returned, pending when fewer than the cap all raised, failed when at least the cap all raised, never left processing |
| `Outbox.SentForGood` | app/outbox.py:106-156 | a sent row is never dispatched or changed again |
| `Outbox.BatchesTake` | app/outbox.py:106-156 | once dispatching stops raising, on any table and at any times, how many rows due at any later time are left |
| `Outbox.DueRowsDrain` | app/outbox.py:106-156 | as long as no waiting row becomes due, each batch takes a whole limit of the due rows, whatever else the table holds |
| `Outbox.DueRowsDrainInTime` | app/outbox.py:106-156 | the n rows due now are all sent exactly from ceil(n / limit) batches on, other rows still waiting or not |
| `Outbox.LateBatchesEmpty` | app/outbox.py:106-156 | with rows still waiting at first, each batch from the moment all are due takes a whole limit until the table is empty |
| `Outbox.UnsentIsRetried` | app/outbox.py:111-118 | in every run a row that is not sent is dispatched exactly when its delay is over and fewer due rows than the limit come first, whatever its attempts |
| `Outbox.BatchRowByRow` | app/outbox.py:106-156 | each row of the table after a batch: a selected one that returns is sent, dated and without error, one that raises waits out the delay with its error and the label of its attempts; every other row stays |
| `Outbox.NewRowIsDue` | app/outbox.py:40-85 | a new row has never been tried and is due exactly from the moment it is queued |
| `Outbox.DrainsInTime` | app/outbox.py:106-156 | where every unsent row is due, the table is empty exactly from ceil(n / limit) batches on |
| `Outbox.NeverGivesUp` | app/outbox.py:111-118 | an instance: one row dispatched in vain any number of times is still tried again |
| `Outbox.OutboxTable.EnqueueMongoUpsert` | app/outbox.py:40-62 | one pending row is added at the end |
| `Outbox.OutboxTable.EnqueueRealtimeEvent` | app/outbox.py:65-85 | one pending row is added at the end |
| `Outbox.OutboxTable.SelectDue` | app/outbox.py:108-118 | exactly the first due rows by id, up to the limit |
| `Outbox.OutboxTable.DispatchOutboxBatch` | app/outbox.py:106-156 | the table after the batch; the counters are the numbers of selected rows that returned and that raised |
| `RateLimiter.CountIsExact` | app/redis_client.py:91-114 | the counter is the exact number of hits of the key in its bucket, despite expiry and clean-up; the request passes exactly within the limit; waiting as told reaches a later bucket |
| `RateLimiter.AnswerIsExact` | app/redis_client.py:100-114 | what a caller is told besides the count: its limit, what is left of it, and to wait until one window after the first hit of its bucket |
| `RateLimiter.HitIsExact` | app/redis_client.py:91-114 | one hit keeps every running counter exact |
| `RateLimiter.BucketLetsThrough` | app/redis_client.py:105-114 | of a bucket's hits exactly the first ones up to the limit pass |
| `RateLimiter.AtMostTwiceTheLimit` | app/redis_client.py:490-507 | in any interval one window long at most twice the limit passes |
| `RateLimiter.LocalLimiter.CleanUp` | app/redis_client.py:94-98 | only expired entries go, only from a table of more than 50000, and as many as there are up to 10000 |
| `RateLimiter.LocalLimiter.LocalRateLimitHit` | app/redis_client.py:91-114 | table and decision after one hit |
| `ErrorBudget.PruneIsWithin` | app/observability.py:75-80 | on a sorted queue, popping from the front is filtering by time |
| `ErrorBudget.PruneKeepsWindows` | app/observability.py:73-80 | pruning now leaves every later window as it was |
| `ErrorBudget.StateIsThreshold` | app/observability.py:82-93 | the alert state as a comparison of errors with one and two budgets, without division |
| `ErrorBudget.FiguresBalance` | app/observability.py:82-105 | availability and failures make up the total, the burn rate times the budget is the error rate, and the remaining budget is what it leaves, if anything |
| `ErrorBudget.WindowIs` | app/observability.py:73-80 | the window reaches back at least a minute and holds exactly the samples that recent, as often as the log has them |
| `ErrorBudget.ErrorsAre` | app/observability.py:82-86 | the errors counted are the failed samples |
| `ErrorBudget.TargetIsHonoured` | app/observability.py:133 | the target is kept between 0.90 and 0.9999, and the budget is what it leaves |
| `ErrorBudget.RunWellSpaced` | app/observability.py:264-281 | repeated alerts of one state are at least a minute apart and each recovery message directly follows an alert |
| `ErrorBudget.NothingUnreported` | app/observability.py:264-281 | while a problem lasts the last message names it and is under a minute old; when it ends the last message says so |
| `ErrorBudget.Middleware.Add` | app/observability.py:68-71 | the outcome joins the log |
| `ErrorBudget.Middleware.Snapshot` | app/observability.py:73-105 | totals and errors are those of the full unpruned log within the window |
| `ErrorBudget.Middleware.OnRequest` | app/observability.py:253-281 | one request: log, figures and alarm together |
| `KeyRotation.EncryptThenDecrypt` | app/enterprise_controls.py:294-337 | a sealed text opens to its stripped plaintext under its own associated data, also with the active key alone, and under no other |
| `KeyRotation.UniqueKeeps` | app/enterprise_controls.py:592-596 | the candidate list keeps every pattern once, the canonical one first |
| `KeyRotation.FirstOpeningIs` | app/enterprise_controls.py:607-613 | trying the candidates in turn finds the plaintext exactly when one of them is right, in whatever order |
| `KeyRotation.OpensKnownPatterns` | app/enterprise_controls.py:577-613 | a box opens exactly when its key is loaded and it was sealed for the document under one of the five patterns |
| `KeyRotation.StripExactly` | app/enterprise_controls.py:30-31 | stripping takes exactly the white space off both ends |
| `KeyRotation.ReadableExactly` | app/enterprise_controls.py:314-337 | what can be read of a stored text: plain text always, an envelope only under a loaded key id, and then a box with the right key and associated data, or the envelope's own text where members are of the wrong type or missing |
| `KeyRotation.EnvelopesExactly` | app/enterprise_controls.py:419-430 | what counts as an envelope and under which key id |
| `KeyRotation.SubjectIsFirst` | app/enterprise_controls.py:408-416 | the subject comes from the first of five members that has a value |
| `KeyRotation.OutcomeExactly` | app/enterprise_controls.py:499-536 | each listed field has exactly one outcome, told by its cell; it fails exactly if none of the five patterns opens it |
| `KeyRotation.SealedAsThePolicySeals` | app/enterprise_controls.py:559-577 | a resealed value is sealed for the field's plain name, as on its way in |
| `KeyRotation.NoFailureMeansSettled` | app/enterprise_controls.py:499-542 | a real rotation reports no failure exactly when afterwards every listed non-blank text is an envelope under the active key id |
| `KeyRotation.OldKeysCanBeDropped` | app/enterprise_controls.py:475-556 | after a rotation without failures every listed text is settled and, where the subject's own member is not rewritten, reads as before under the active key alone |
| `KeyRotation.ReadsAsBeforeExactly` | app/enterprise_controls.py:408-416 | all listed fields of a document read as before exactly when the rotation does not rewrite the member that names the subject |
| `KeyRotation.RewrittenSubjectIsLost` | app/enterprise_controls.py:513-542 | a rewritten subject member, readable before, cannot be read afterwards, with or without the old keys |
| `KeyRotation.SecondRotationIsIdle` | app/enterprise_controls.py:502-542 | after a rotation without failures a second one rotates, migrates and fails nothing and changes no document |
| `KeyRotation.CurrentIsNotRechecked` | app/enterprise_controls.py:515-519 | a value under the active key id is passed over whatever it was sealed for |
| `KeyRotation.TallyFailed` | app/enterprise_controls.py:499-556 | the report counts every document, and its failure count is 0 exactly when no listed field failed |
| `KeyRotation.FieldCounts` | app/enterprise_controls.py:506-536 | the counters of current, skipped, failed and migrated values add exactly the listed fields of each kind |
| `KeyRotation.RotatedCountsChanges` | app/enterprise_controls.py:537-542 | the rotated counter is the number of documents a real rotation changes |
| `KeyRotation.EncryptedIsSettled` | app/enterprise_controls.py:339-354 | a newly sealed text counts as current exactly when it is blank or the active key id is not |
| `KeyRotation.Collection.VisitField` | app/enterprise_controls.py:503-536 | one field's outcome, with the candidates tried in turn |
| `KeyRotation.Collection.VisitFields` | app/enterprise_controls.py:501-536 | the updates and counters of one document |
| `KeyRotation.Collection.RotateCollectionEncryption` | app/enterprise_controls.py:475-556 | a real run leaves the rotated documents, a dry run writes nothing, and both report the same counters |
| `IdAlignment.AlignMoves` | app/id_alignment.py:140-153 | an alignment does nothing, or moves the e-mail's own profile to an id nobody holds; the deleting branch is never taken while e-mails are unique |
| `IdAlignment.AlignShape` | app/id_alignment.py:125-210 | on normal return the profile has its SQL id, ids and e-mails stay unique and no other profile changes |
| `IdAlignment.AlignIsFaithful` | app/id_alignment.py:53-210 | every reference still names the same person, and the e-mail's auth documents are pointed at the SQL id |
| `IdAlignment.FollowsExactly` | app/id_alignment.py:53-210 | every reference keeps naming the same person exactly when nothing moves or no reference dangles on the id given out |
| `IdAlignment.SweepAligns` | app/main.py:1717-1735 | earlier alignments of a sweep survive later ones |
| `IdAlignment.SweepConflictsExactly` | app/main.py:1717-1735 | a sweep ends in a conflict exactly when the id of some row whose profile is not on it is held at the start by somebody outside the rows or of a later row |
| `IdAlignment.ExchangedIdsConflict` | app/id_alignment.py:144-147 | an instance: two exchanged ids conflict in either order |
| `IdAlignment.SweepFollows` | app/main.py:1717-1735 | after a sweep every reference still names the same person |
| `IdAlignment.SweptAuth` | app/main.py:1717-1735 | an auth document of a row ends on that row's id, unless a later row's profile held it |
| `IdAlignment.SweptAuthOnHolder` | app/main.py:1717-1735 | in the entangled case the auth document ends on the id of the very row whose profile held the id |
| `IdAlignment.SweptOutsider` | app/main.py:1717-1735 | the auth document of somebody outside the SQL rows keeps naming the same person's profile |
| `IdAlignment.SweepIsIdempotent` | app/main.py:1717-1735 | a sweep without a blocked row ends normally, and a second one changes nothing exactly when no auth document is entangled; profiles and references never change the second time |
| `IdAlignment.SweepReachesEveryRow` | app/main.py:1717-1735 | a sweep that ends normally leaves the profile of every SQL row's e-mail on the row's id |
| `IdAlignment.EntangledExample` | app/id_alignment.py:163-164 | a two-row sweep that leaves an auth document on the wrong profile |
| `IdAlignment.AuthAlignIsFaithful` | app/id_alignment.py:77-122 | the auth document takes its SQL id, ids stay unique and the user's sessions, codes and deliveries stay with the user |
| `IdAlignment.MongoStore.MigrateProfileIdReferences` | app/id_alignment.py:53-74 | every field and array element with the old id has the new one, and nothing else changes |
| `IdAlignment.MongoStore.AlignProfileId` | app/id_alignment.py:125-210 | the store after one alignment, unchanged on a conflict |
| `IdAlignment.MongoStore.SyncSnapshot` | app/main.py:1717-1735 | the sweep over the rows with an e-mail, and how far it got when a conflict ends it |
| `AcademicPolicy.TermsAddUp` | app/academic_policy.py:47-56 | elapsed terms add up over consecutive days and are 0 exactly within one half-year |
| `AcademicPolicy.NextTerm` | app/academic_policy.py:47-56 | a single term has elapsed exactly from one half of a year to the next |
| `AcademicPolicy.OneSemesterPerTerm` | app/academic_policy.py:99-102 | every elapsed term brings one semester more, up to the twelfth; a recorded 0 counts as 1 |
| `AcademicPolicy.PromotionPathIndependent` | app/academic_policy.py:99-102 | promotion in two steps agrees with one, cap included, except exactly from a negative semester brought to 0 |
| `AcademicPolicy.PromotionOverCalls` | app/academic_policy.py:97-106 | however calls are spread over the days, the last semester is that of a single promotion from the first marker |
| `AcademicPolicy.DecimalOrder` | app/academic_policy.py:134 | length-then-text order of decimal numbers is numeric order |
| `AcademicPolicy.BucketOrder` | app/academic_policy.py:76-79 | names of later buckets sort later in that order |
| `AcademicPolicy.OwnNameRecognized` | app/academic_policy.py:82-87 | the policy recognizes its own section names exactly when the appended number does not begin with 1 |
| `AcademicPolicy.RecognizedExactly` | app/academic_policy.py:82-87 | the names recognized are exactly the base, or the base followed by digits of which the first is 2 to 9 |
| `AcademicPolicy.NormalizeExactly` | app/academic_policy.py:82-83 | normalizing keeps what is not white space, in upper case and in order |
| `AcademicPolicy.SectionBaseSays` | app/academic_policy.py:72-73 | the base of a section name reads as the semester, the last two digits of the year, and the department |
| `AcademicPolicy.CapacityKeptExactly` | app/academic_policy.py:122-143 | the section chosen has a free seat, except exactly when all sections in use are full and the next bucket's name is in use |
| `AcademicPolicy.CapacityExceededExample` | app/academic_policy.py:122-143 | an instance: sixty students in 125CSE2, nobody in 125CSE, and the next one is sent to 125CSE2 |
| `AcademicPolicy.PicksOwnBucket` | app/academic_policy.py:104-143 | in a base filled in order the choice is always the bucket of the student's place, new or not |
| `AcademicPolicy.AdmissionsFillInOrder` | app/academic_policy.py:90-146 | from an empty base on, among admissions, repeated calls and unrelated bases, the n-th student placed sits in bucket n div 60 |
| `AcademicPolicy.NoSectionOverfull` | app/academic_policy.py:136-143 | no section of such a base seats more than 60 |
| `AcademicPolicy.RepeatKeepsSection` | app/academic_policy.py:104-146 | in such a base a repeated call answers the present section, forced or not, whenever it works with the base |
| `AcademicPolicy.RosterWorks` | app/academic_policy.py:97-104 | every call within the term of the student's last one works with the same base and semester |
| `AcademicPolicy.RepeatChangesNothingWhen` | app/academic_policy.py:104-106 | an unforced repeated call leaves the table as it is when the name is recognized, and chooses afresh when it is not |
| `AcademicPolicy.PrefixBaseShares` | app/academic_policy.py:108-143 | while only a longer base has sections, the shorter one's students are sent there exactly as long as any has a free seat, and to an own bucket once all are full (unless the longer name goes on with a digit) |
| `AcademicPolicy.PrefixBaseExample` | app/academic_policy.py:108-139 | an instance: a student of stream CS is sent to 125CSE |
| `AcademicPolicy.AssignedRow` | app/academic_policy.py:97-146 | a call changes only the student's row, promoting it and renewing the marker unless it keeps |
| `AcademicPolicy.ChoosesAfresh` | app/academic_policy.py:104-146 | a forced call, a call in a later term and a call without a section always choose afresh and renew the marker |
| `AcademicPolicy.AssignmentIsDetermined` | app/academic_policy.py:90-146 | the table and the answer after a call are determined |
| `AcademicPolicy.Registry.SortTexts` | app/academic_policy.py:134 | the distinct section names in length-then-text order |
| `AcademicPolicy.Registry.AssignStudentSection` | app/academic_policy.py:90-146 | the table and the answer after one call: promotion, the first section with a free seat, or the next bucket |
| `FaceSequence.EvaluateEmbeddingSequence` | app/face_verification.py:1062-1155 | a match exactly when a long enough block of accepted frames and the majority exist; the scores are those of the leftmost longest block and a match's confidence lies between the threshold and 1 |
| `FaceSequence.AcceptStep` | app/face_verification.py:1111-1120 | one more accepted frame replaces the longest block only if strictly longer |
| `FaceSequence.MeanBounds` | app/face_verification.py:1142-1143 | a mean lies between the bounds of its scores |
| `FaceSequence.SumAdds` | app/face_verification.py:1142-1143 | a mean weighs every score alike |
| `FaceSequence.MajorityIsLeast` | app/face_verification.py:1140 | the majority is the least number that reaches the streak asked for and three fifths of the frames |
| `FaceSequence.AcceptedExactly` | app/face_verification.py:1095-1109 | a frame is accepted exactly if its similarity reaches the threshold and no flag rules it out |
| `FaceSequence.CountIs` | app/face_verification.py:1134-1141 | the frames counted are those flagged |
| `FaceSequence.ValidCountIs` | app/face_verification.py:1135-1138 | with flags the valid frames are those flagged so, without flags all |
| `FaceSequence.StricterNeverAdmits` | app/face_verification.py:1109 | a stricter threshold never admits an attempt that a laxer one refuses |

## Left out

- Row filters: the queries of the snapshot, the plans and the registry are taken as already restricted to their student, course and dates; ids are positions or keys.
- RecoveryPlans.Evaluate: the RMS case upsert, notifications on other channels, mirrored documents, titles, due dates and summaries are not modelled; actions to keep are matched by kind and target rather than by row id, which agrees while no plan has duplicates, as every run keeps.
- RecoveryMail.Dispatch: message texts and study resources are not modelled; delivery is an oracle that succeeds, is suppressed or fails, and an error of a dispatch is an oracle that strikes before the student's or before the faculty's mail.
- AttendanceSnapshot.CourseAttendanceSnapshot: the percentage is the exact half-even rounding to hundredths; binary floating point may differ in the last digit.
- RedisFailover.CallIsExact: health is fixed during the call and one clock reading serves it, so at most the first attempt runs a health check; instances are values, so aliasing of a client between instances is not captured; creating and closing clients is an oracle.
- Sessions.AuthStore: each call is one atomic step; password expiry is an input, device and network details and the identity observer are not modelled.
- SyncGate: the lock is taken as making each begin and each finish one step.
- RealtimeHub: the backend transport, the deferral to the outbox when it fails and the event loop's scheduling are not modelled; events are delivered in the order of the calls.
- AttendanceLedger: payload fields other than status, source and actor are not modelled.
- Outbox.OutboxTable.DispatchOutboxBatch: what a dispatch does is an oracle that returns or raises; in particular a row that does not require Mongo may return, and be marked sent, without a write (`app/mongo.py:770-778`).
- RateLimiter: the Redis-backed counter is left out; the same local code in `app/redis_dual_client.py:441-464` is covered by the same module.
- ErrorBudget: latency metrics and trace ids are left out.
- KeyRotation: the sealing itself is ideal, and two sealings of one text look alike; associated data is kept as its parts, so different parts that join to one text are told apart; envelopes are stored without surrounding blanks; white space is the ASCII kind; loading keys from the environment is not modelled, and neither are error texts. The document's own key is not a field to list.
- KeyRotation.NoFailureMeansSettled: assumes a non-blank active key id, since an envelope under a blank id never counts as current (`EncryptedIsSettled`).
- IdAlignment: the sweep is modelled for one kind of profile at a time, student and faculty ids being separate fields; the variant called with a user document, which points one auth row by its id, the counter bumps and swallowed errors of single collections are not modelled; e-mails are kept normalised.
- AcademicPolicy: the short form of a department is an input; white space and upper case are the ASCII kind; the prefix query compares case as it is stored.
- FaceSequence.EvaluateEmbeddingSequence: the similarity of a frame, the best over all reference embeddings, is an input between 0 and 1; reasons and time stamps of the audit are left out.
- HTTP routes, mail transport, language-model guidance, image processing, TOTP codes and schema migrations are wiring or foreign code and are not modelled.
