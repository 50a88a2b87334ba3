# Safe Bunk: attendance ledger and safe-bunk calculator in Dafny

This project models the algorithmic core of TheSafeBunk, a student attendance
tracker. Each subject keeps two counters, `attendedLectures` and
`totalLectures`, and attendance logs meant to be one per calendar day (the
model keeps them in a map from day to status). The app uses
these counters and the user's minimum-attendance target to give a verdict:

- **SAFE**: the number of further lectures the student may skip and stay at or
  above the target.
- **DANGER**: the number of consecutive lectures the student must attend to
  get back to the target.

Modules:

- `SafeBunk` (`safe_bunk.dfy`) models the controller's calculator
  `calculateSafeBunkStatus`. The target is the user's integer percentage `m`
  (the source divides `minAttendance` by 100), so all arithmetic is exact.
  The ghost predicate `MeetsTarget(p, d, m)` states the source's test
  `p / d >= m / 100` on real numbers. The lemmas prove that the SAFE count is
  the largest number of skippable lectures, and that the DANGER count is the
  smallest number of lectures that recovers the target.
- `SafeBunkLogic` (`safe_bunk_logic.dfy`) models the stand-alone script
  `calculateSafeBunk`, together with its doc-comment intent and its worked
  test cases. It also models how the script relates to the controller's
  version.
- `Attendance` (`attendance.dfy`) models the transition inside `markAttendance`.
  The class `Subject` holds the two counters and the subject's day-to-status
  log. `Subject.Mark` does the first mark, the revert-and-reapply on a re-mark,
  and the no-op on a same-status re-mark, with the same `-=`/`+=` steps as the
  source. The object invariant `Valid` says what the counters mean. A
  subject is created with counters of its own (`createSubject` stores the
  ones it is sent, 0 and 0 by default), kept in the ghost field `base`. From
  then on, `total` is `base.total` plus the number of logged days whose
  status is not `Cancelled`, and `attended` is `base.attended` plus the
  number of logged `Present` days. Every mark preserves `Valid`, and `Valid`
  implies `0 <= attended <= total`. `MarkAttendance` chains the mark with
  the calculator, as the controller does.

Where the code and the design description differ, the model follows the code:

- **`Not Marked` counts toward the total.** The code's test is
  `status !== 'Cancelled'`, so a `Not Marked` log counts toward `total` but
  not toward `attended`.
- **No clamping.** The code never clamps either count. In exact arithmetic
  the SAFE count is never negative (`SafeBunkStatus` ensures it). The DANGER
  count is never negative for consistent counters (`CountIsNonNegative`).
- **No target check.** The code never checks the target. Here
  `ValidTarget(m)` (`0 < m < 100`) is a precondition rather than an
  `InvalidTarget` error.

The day is an explicit parameter. The source looks up the existing log with
the wall clock's "today", but it stores `date || new Date()`. The model uses
one explicit day for both the lookup and the insert.

## Model

| member | source | states |
|---|---|---|
| SafeBunk.FloorDiv | safe-bunk-backend/controllers/attendanceController.js:11 | the result is the floor of n/d: d*r <= n < d*r + d, and non-negative for n >= 0 |
| SafeBunk.CeilDiv | safe-bunk-backend/controllers/attendanceController.js:19 | the result is the ceiling of n/d: d*r - d < n <= d*r, and at least 1 for n > 0 |
| SafeBunk.SafeBunkStatus | safe-bunk-backend/controllers/attendanceController.js:5-26 | a SAFE count is never negative; a DANGER count is at least 1 once any lecture has been held |
| SafeBunk.MeetsTargetCross | safe-bunk-backend/controllers/attendanceController.js:9 | for d > 0, p/d >= m/100 on reals holds exactly when 100*p >= m*d |
| SafeBunk.SafeIffMeetsTarget | safe-bunk-backend/controllers/attendanceController.js:6-9 | the verdict is SAFE exactly when total > 0 and attended/total >= target, else DANGER |
| SafeBunk.SafeBunksIsLargest | safe-bunk-backend/controllers/attendanceController.js:11 | the SAFE count x is >= 0; attended/(total+x) meets the target, attended/(total+x+1) does not; attended/(total+k) meets it exactly for k <= x |
| SafeBunk.NeededIsSmallest | safe-bunk-backend/controllers/attendanceController.js:19 | with total > 0, the DANGER count y is >= 1; (attended+k)/(total+k) meets the target exactly for k >= y, so y-1 does not |
| SafeBunk.ZeroTotalIsDanger | safe-bunk-backend/controllers/attendanceController.js:6-19 | with no lecture held the verdict is DANGER, with count 0 when nothing was attended |
| SafeBunk.CountIsNonNegative | safe-bunk-backend/controllers/attendanceController.js:9-25 | for attended <= total, the reported count in either branch is >= 0 |
| SafeBunkLogic.CalculateSafeBunk | safeBunkLogic.js:9-36 | the script's SAFE count is never negative, including the unguarded total == 0 case |
| SafeBunkLogic.AgreesWithController | safeBunkLogic.js:11-34 | when total > 0 or attended == 0, the script returns the same status and count as the controller |
| SafeBunkLogic.DiffersWithoutLectures | safeBunkLogic.js:11-18 | with total == 0 and attended > 0 the script says SAFE (attended/0 is +Infinity) where the controller says DANGER |
| SafeBunkLogic.ScriptCountsAreTight | safeBunkLogic.js:4-6 | with total > 0, SAFE x is the largest k with P/(T+k) >= target, and DANGER y >= 1 is the smallest k with (P+k)/(T+k) >= target |
| SafeBunkLogic.WorkedExamples | safeBunkLogic.js:38-58 | (12,15) gives SAFE 1; (10,15) gives DANGER 5 with 15/20 = 0.75; (15,20) gives SAFE 0 with 15/20 = 0.75; (20,20) gives SAFE 6 with 20/26 meeting and 20/27 missing the target; (0,10) gives DANGER 30 with 30/40 = 0.75 |
| Attendance.Effect | safe-bunk-backend/controllers/attendanceController.js:89-94 | a status adds at most 1 to total and no more to attended than to total |
| Attendance.Remark | safe-bunk-backend/controllers/attendanceController.js:58-73 | every mark, the same-status shortcut included, is revert-then-apply: the counters lose the day's earlier effect (none on a first mark) and gain the new status's effect |
| Attendance.FirstMarkEffects | safe-bunk-backend/controllers/attendanceController.js:80-95 | a first mark adds (+1,+1) for Present, (+0,+1) for Absent and Not Marked, and nothing for Cancelled |
| Attendance.RemarkSameIsNoop | safe-bunk-backend/controllers/attendanceController.js:58 | re-marking a day with its current status leaves the counters unchanged |
| Attendance.RemarkRevertsExactly | safe-bunk-backend/controllers/attendanceController.js:59-73 | marking a day `first`, then re-marking it `second`, gives the same counters as marking it only `second` |
| Attendance.PresentThenCancelledExample | safe-bunk-backend/controllers/attendanceController.js:59-73 | (12,15) marked Present becomes (13,16); re-marked Cancelled it returns to (12,15) |
| Attendance.TallyBounds | safe-bunk-backend/controllers/attendanceController.js:89-94 | counters that match their log satisfy 0 <= attended <= total |
| Attendance.RemarkKeepsTally | safe-bunk-backend/controllers/attendanceController.js:54-96 | the counter update of a mark, applied to the log's tally, gives the tally of the updated log |
| Attendance.RemarkKeepsLedger | safe-bunk-backend/controllers/attendanceController.js:54-96 | counters equal to consistent creation-time counters plus the log's tally stay so after a mark, and stay within 0 <= attended <= total |
| Attendance.Subject.Create | safe-bunk-backend/controllers/setupController.js:94-105 | a new subject holds the counters it is given and no logs; it satisfies the ledger invariant exactly when 0 <= attended <= total |
| Attendance.Subject.Mark | safe-bunk-backend/controllers/attendanceController.js:54-96 | the day's log becomes `status` and nothing else in the log changes; the counters follow the revert-then-apply rule; a first mark adds exactly one log; a same-status re-mark changes nothing; the ledger invariant and 0 <= attended <= total are preserved |
| Attendance.PresentThenCancelledScenario | safe-bunk-backend/controllers/attendanceController.js:54-96 | a subject at (12,15) marked Present and then re-marked Cancelled on the same day ends at (12,15) |
| Attendance.TargetPercent | safe-bunk-backend/controllers/attendanceController.js:101 | the target is minAttendance when it is set and not 0, and 75 otherwise |
| Attendance.MarkAttendance | safe-bunk-backend/controllers/attendanceController.js:54-107 | applies the mark to a consistent subject; the returned verdict is the calculator's verdict on the updated counters, for the target minAttendance, or 75 when that is unset or 0 |

## Left out

- The 404 and 401 checks (subject lookup by id, ownership) and the database
  reads and writes are left out. The model works on a `Subject` object that
  the caller already holds. Its log is keyed by day alone, because a subject
  belongs to one user.
- The response's `message` strings are left out. Only the status and the
  count are modelled.
- JavaScript floating point is not modelled. The target is an exact integer
  percentage, so rounding effects in `attended / target` and `Math.ceil`
  (for example at a 70% target) do not arise.
- Degenerate targets are not modelled. A target of 100% or more, or of 0% or
  less, is excluded by the `ValidTarget` precondition. The source does not
  check for these: at 100% it divides by zero.
- The script's fractional test call `calculateSafeBunk(11.25, 15, 0.75)` and
  its `console.log` output are left out. Counts are natural numbers here.
- Concurrency is left out: the non-atomic read-modify-write across `findOne`
  and `save`. Each `Mark` runs as one atomic step.
- MarkAttendance: requires the subject to be consistent (`Valid`). This
  excludes subjects that `createSubject` stored with negative counters or
  with attended > total: it stores whatever counters it is sent, unchecked
  (setupController.js:94-105). For those subjects the model promises
  nothing.
- One log per day is not modelled as the source writes it. There is no
  unique index on the logs. `markAttendance` looks up the log of the wall
  clock's today, but creates the new log at the request's `date`. So two
  requests for the same past date create two logs and count that day twice.
  A request for a past date when today already has a log re-marks today's
  log instead. The model keeps one log per day and uses one day for both the
  lookup and the insert.
- A status outside the four enum values is not modelled. Mongoose rejects
  the create or save (HTTP 500) and nothing is stored. The `Status`
  datatype cannot express such a status.
