# Driving-school backend: a verified model

A Dafny model of the stateful and arithmetic cores of the driving-school backend, with proofs
of what they promise over every input and every run:

- the login-failure detector: an event log, a per-key cursor, generations, a cached deadline and
  replay after late arrivals, run concurrently with retention (`LoginDetection`,
  `LoginDetectionRefinement`, `LoginDetectionDeadCache`, `LoginDetector`), and what it promises over
  the failures recorded (`LoginDetectionLaw`);
- the schedule writes: lessons, instructor events, participants, vehicles and course packages
  (`Schedule`, `ScheduleSafety`, `ScheduleEvents`, `ScheduleStaleReads`, `ScheduleRowConditions`,
  `SchedulePackage`, `ScheduleHours`, `ScheduleUndo`, `ScheduleStore`), and every check and write read
  off rows and columns (`ScheduleTables`, `ScheduleRules`);
- the interval arithmetic behind availability: window subtraction, slots, the option grid, the
  lesson-edit options and the daylight-saving splitter (`TimeWindows`, `AvailabilityOptions`,
  `LessonEditOptions`, `LessonOfferLaw`, `BusyIntervals`);
- the seed planner and the seed integrity check (`SeedPlanner`, `SeedLaw`, `SeedIntegrity`,
  `SeedIntegrityLaw`);
- account sessions and the two-store email change (`Accounts`, `EmailChangeLaw`,
  `AccountAccess`, `AccountService`);
- keyset paging of the security log (`SecurityLogPages`, `LogPageLaw`) and the login limiter
  (`LoginRateLimit`).

Code that updates rows step by step is modelled twice: as a function from state to state, about
which the theorems are proved, and as a class or a method with loops that is proved to compute
that function. `Chronology` holds what the modules share: an optional value and the order by
(instant, id).

## How the model reads the code

- A database transaction is one atomic step. The schedule writes are serializable and the
  detector holds the row lock of a key from upsert to commit
  (`src/services/security-events/record.ts:228-229`), so records and batches of one key serialise.
  Retention locks only the rows it deletes (`src/services/security-events/retention.ts:28-38`), so
  its deletions may also fall between any two queries of a batch (`LoginDetection.WorkAmid`).
- A request on an event reads the event's row before its transaction opens
  (`src/services/event/writeModel.ts:119-134`, `src/services/event/participantWriteHelpers.ts:40-55`),
  so each such write carries the row it read (`seen`) beside the tables it writes to; the two may
  differ in any way. Lesson writes read their row inside the transaction.
- Tables of the schedule are sequences and an id is a position; rows are never removed.
- Instants and minutes are unbounded integers; `Math.round` of a positive duration rounds half up.
- Outside `BusyIntervals` the offset of local time is constant, so a day is 24 hours long. In
  `BusyIntervals` the offset is an arbitrary function of the instant, and the calendar an
  arbitrary increasing function from days to their first instants.
- The all-zero id of a rewound cursor sorts below every real id.
- Emails are compared without case. Any number of changes and reconciles of an account may be
  between their steps at once, any of them may stop between any two writes, and the Auth provider
  may store a new email and still answer with an error, or store it only after the request that
  asked for it has stopped. A failed local transaction is rolled back.
- Where the code differs from what it is meant for, the model follows the code, a lemma shows the
  difference on a run from the start, and another gives the exact condition under which it is absent:
  - the cached deadline can outlive the alarm it came from when retention deletes that alarm
    (`LoginDetectionDeadCache.DeadCacheSilencesAnAlarm`; exactly when it matters:
    `LoginDetectionRefinement.DrainIsOnePassExactly`);
  - changing a status back, or writing an event from a row that has changed since it was read, can
    make two commitments overlap or overfill an event (`ScheduleStaleReads.ReactivationCanOverlap`,
    `StaleEditCanOverlap`, `StaleAssignmentCanOverlap`, `StaleAssignmentCanExceedCapacity`; exact
    conditions: `ScheduleEvents.WriteKeepsNoOverlapExactly`, `WriteKeepsCapacityExactly`);
  - overlapping email requests, an error answer from Auth after the update, or an update that lands
    late can leave the two stores apart with nothing open
    (`Accounts.OverlappingReconcilesCanDisagree`, `ReconcileDuringChangeCanDisagree`,
    `ErrorAfterUpdateDisagrees`, `LateUpdateDisagrees`; exact condition: `Accounts.StepAgreesExactly`);
  - a move offered for the current minute is refused
    (`LessonEditOptions.CurrentMinuteIsOfferedAndRefused`; exact condition: `OfferedEditExactly`);
  - the limiter's transactions take their time before their lock, so times can go back, and then a
    minute can hold nearly three times the limit (`LoginRateLimit.CrowdExceeds`; exact condition:
    `TwiceTheLimitExactly`);
  - a limit of zero would let one attempt through (`LoginRateLimit.CountsNeverExceedExactly`; the
    login route passes 5 and 20).

## Model

| member | source | states |
|---|---|---|
| LoginDetectionLaw.EnoughFailuresRaiseAnAlarm | src/services/security-events/detection.ts:101-280 | in every run of records, late records, worker batches and retention, wherever done equals queued: five recorded failures of an account, or twenty from an address, less than ten minutes before a failure or at it, give an alarm less than ten minutes from it, if nothing of those ten minutes was deleted |
| LoginDetectionLaw.AlarmsHaveEnoughFailures | src/services/security-events/detection.ts:118-140 | there, every alarm sits on a recorded failure with that many up to it |
| LoginDetectionLaw.AlarmsAreApart | src/services/security-events/detection.ts:141-187 | at every moment of every run two alarms lie at least ten minutes apart |
| LoginDetectionLaw.LogHoldsRecorded | src/services/security-events/detection.ts:101-112 | the log holds only recorded failures, and all of them from which on nothing was deleted |
| LoginDetectionLaw.TwentyAtATime | src/services/security-events/detection.ts:101-112 | a batch treats the next twenty failures past the cursor, or all that are left and then closes the generation |
| LoginDetectionLaw.OneFailureExactly | src/services/security-events/detection.ts:113-266 | what the replay does with one failure: nothing before the deadline or below five or twenty in ten minutes; otherwise an alarm exactly if none is within ten minutes, and a deadline ten minutes after the latest one that is |
| LoginDetectionLaw.RecordingIsExact | src/services/security-events/record.ts:215-239 | a recorded failure waits for the worker; one at or before the cursor makes everything from its instant on wait again and drops the deadline; generations and activity move as stated |
| LoginDetectionLaw.DeletionIsExact | src/services/security-events/retention.ts:26-40 | a deletion removes the failures and alarms it names that are before the cutoff, and nothing else |
| LoginDetectionLaw.StateDeletionIsExact | src/services/security-events/retention.ts:43-47 | the state goes exactly when it is finished and has been idle since before the cutoff |
| LoginDetectionLaw.RunsGoOn | src/services/security-events/detection.ts:49-60 | a run takes these steps one after the other, from an empty store |
| LoginDetection.RunKeepsInv | src/services/security-events/detection.ts:49-285 | the invariant behind it holds after every step of every run, in the middle of a replay too |
| LoginDetection.RecordKeepsInv | src/services/security-events/record.ts:215-239 | a late or an on-time record keeps the invariant, whatever the worker has already treated |
| LoginDetection.WorkKeepsInv | src/services/security-events/detection.ts:101-280 | one batch keeps the invariant |
| LoginDetection.WorkAmidKeepsInv | src/services/security-events/detection.ts:101-280 | so does a batch during which retention deletes any expired rows before any of its queries, above a horizon ten minutes after the latest cutoff |
| LoginDetection.ReplayAllOk | src/services/security-events/detection.ts:115-266 | through such a batch alarms stay justified and separated, and every failure treated in it or before stays covered |
| LoginDetection.WithoutDeletions | src/services/security-events/detection.ts:101-280 | with no deletion in between that batch is the plain one |
| LoginDetection.ScanOneOk | src/services/security-events/detection.ts:115-187 | one failure of a batch, counted in a log that may have lost expired rows since: alarms stay justified and separated, the failure itself becomes covered if it is hot, and the cached deadline stays valid |
| LoginDetection.PruneRowsKeepsInv | src/services/security-events/retention.ts:25-40 | deleting any expired failures and alarms keeps the invariant above a horizon ten minutes later |
| LoginDetection.NoLostWakeUp | src/services/security-events/detection.ts:52-60 | in every run done never exceeds queued, and done equal to queued leaves no failure past the cursor, also after a finished state was deleted and created again |
| LoginDetection.WorkProgresses | src/services/security-events/detection.ts:267-293 | each batch treats twenty pending failures, or all that are left and then closes the generation, so draining ends |
| LoginDetection.LatestNear | src/services/security-events/detection.ts:144-182 | the query for a nearby alarm returns the latest instant of an alarm within ten minutes on either side, and nothing only if there is none |
| LoginDetectionRefinement.DrainIsOnePassExactly | src/services/security-events/detection.ts:101-187 | from every store, with a live or a dead cached deadline, draining in batches of twenty with the cache ends with the same alarms and cursor as one unbounded pass that always asks for a nearby alarm, exactly when the stored deadline skips no hot pending failure that has no alarm near it |
| LoginDetectionRefinement.RunsDrainInOnePass | src/services/security-events/detection.ts:144-187 | after every run, retention included: the same equivalence, and the deadline skips no failure that lies a window or more after the retention horizon, so in a run without retention the drain is always the one pass |
| LoginDetectionRefinement.DrainIsCachedPass | src/services/security-events/detection.ts:75-111 | the limit of twenty never matters: draining is one unbounded pass with the same cache, whatever the cache holds |
| LoginDetectionRefinement.DrainIsOnePass | src/services/security-events/detection.ts:111-117 | in particular the drain is the one pass whenever the cached deadline comes from a stored alarm |
| LoginDetectionRefinement.ScanIsAlwaysAsk | src/services/security-events/detection.ts:113-117 | skipping up to the cached deadline never skips an alarm that asking would have raised |
| LoginDetectionRefinement.InOrderRunsAreGreedy | src/services/security-events/detection.ts:263-280 | when failures are recorded in increasing time, the alarms at quiescence are exactly the greedy left-to-right choice, whatever the interleaving with the worker |
| LoginDetectionDeadCache.DeadCacheSilencesAnAlarm | src/services/security-events/retention.ts:25-45 | a concrete run of records, one batch and a retention pass after which draining with the cache raises no alarm where always asking raises one |
| LoginDetector.Detector.RecordSecurityEvent | src/services/security-events/record.ts:215-239 | the upsert and the rewind, in place, are the record step |
| LoginDetector.Detector.Judge | src/services/security-events/detection.ts:115-187 | decides without writing: an alarm exactly if the failure is neither before the deadline nor below the threshold and no alarm is within ten minutes, and the deadline that follows |
| LoginDetector.Detector.Replay | src/services/security-events/detection.ts:115-266 | the loop over the batch creates the specified alarms and returns the specified deadline |
| LoginDetector.Detector.ProcessOne | src/services/security-events/detection.ts:49-285 | one worker transaction is one work step; it reports whether something was queued beyond done, treats twenty waiting failures or all that are left, and closes the generation exactly in the latter case |
| LoginDetector.Detector.ProcessQueue | src/services/security-events/detection.ts:287-293 | a call treats at most its bound of batches, reduces the backlog by twenty per batch down to zero, keeps every invariant and stops early only when nothing is unfinished |
| LoginDetector.Detector.PruneExpired | src/services/security-events/retention.ts:6-47 | the retention loop is a deletion of expired rows followed by the deletion of a finished idle state, and counts what it deleted |
| ScheduleEvents.RunsHaveNoOverlapExactly | src/services/lesson/scheduleConflicts.ts:24-88 | in every run of all writes, whatever rows the event requests read: no instructor, student or vehicle is ever held by two overlapping active commitments exactly when every write is safe, where safe asks only that what an event write did not check is free |
| ScheduleEvents.WriteKeepsNoOverlapExactly | src/services/event/writeConflicts.ts:17-165 | each single write keeps that exactly when it is safe; bookings, lesson edits, cancellations, new and deleted events and removals always are |
| ScheduleEvents.RunsHaveNoOverlap | src/services/event/writeModel.ts:119-275 | and it holds over every run in which the event rows in place allow each event write, judged by the row read and the row in place alone |
| ScheduleEvents.WriteKeepsCapacityExactly | src/services/event/writeConflicts.ts:117-132 | each write keeps every event within its capacity exactly when the participants it leaves fit the capacity in place |
| ScheduleEvents.RunsStayWithinCapacityExactly | src/services/event/participants.ts:38-79 | in every run no event ever has more participants than its capacity exactly when every assignment and replacement leaves participants that fit the capacity in place |
| ScheduleEvents.RunsStayWithinCapacity | src/services/event/participants.ts:38-79 | so over every run in which no assignment or replacement read a larger capacity than the one in place |
| ScheduleEvents.RunsOnRowsAsReadAreSafe | src/services/event/writeModel.ts:119-275 | if every event request finds its row as it read it and none puts a cancelled event back, no resource is ever held twice and no event is ever over its capacity |
| ScheduleSafety.QueriesAreExact | src/lib/lesson-scheduling.ts:74-118 | the conflict queries for students, instructors and vehicles find something exactly when the resource holds another overlapping active commitment |
| ScheduleSafety.BookingIsExact | src/services/lesson/bookingRules.ts:187-226 | a manager's booking succeeds exactly when the rules allow it and the schedule with the lesson has no overlap, and then adds that one lesson |
| ScheduleRules.BookingOverTables | src/services/lesson/bookingRules.ts:96-268 | a booking of either kind succeeds exactly when course, length, student, package, instructor and hours allow it, read off rows and columns, and there is a free vehicle it may take; it appends one row with those columns |
| ScheduleRules.BookingRefusals | src/services/lesson/bookingRules.ts:96-268 | the first reason to refuse a booking decides the answer |
| ScheduleSafety.SelfBookingIsExact | src/services/lesson/bookingRules.ts:228-267 | a self-booking succeeds exactly when the rules allow it and some usable vehicle leaves no overlap; it adds one lesson with such a vehicle, the default one whenever that would do |
| ScheduleSafety.FirstFreeIsFirst | src/services/lesson/vehicleAvailability.ts:104-156 | the vehicle chosen is the first candidate that is usable and free; none is chosen only if there is none |
| ScheduleSafety.PreferredFirstIsCandidates | src/services/lesson/vehicleAvailability.ts:112-138 | the order of candidates puts the default vehicle first and changes nothing else |
| ScheduleRules.EditOverTables | src/services/lesson/writeModel.ts:23-189 | an edit succeeds exactly when the lesson may be edited, a new time has an allowed length, a new time or instructor is allowed for student, package, instructor and hours, and after any change the vehicle is free, all read off rows and columns; it sets window, instructor and vehicle of that row, each to the value the patch names or to the old one, and no other column of any table |
| ScheduleRules.EditRefusals | src/services/lesson/writeModel.ts:41-120 | which of the refusals an edit gets: not found, stale or bad request |
| ScheduleRules.EditWindowRefusals | src/services/lesson/writeModel.ts:120-170 | for a lesson that may be edited: the length first, then student, package, instructor and hours, and the vehicle last |
| ScheduleRules.CancelOverTables | src/services/lesson/cancelLessons.ts:12-163 | a lesson is cancelled exactly when it exists, is scheduled and has not begun, by a student only when it is the own practice lesson; its status is all that changes |
| ScheduleRules.MissingLesson | src/services/lesson/writeModel.ts:53-53 | edits and cancellations of an unknown lesson are answered with not found |
| ScheduleRules.CreationOverTables | src/services/event/writeModel.ts:33-112 | an event is created exactly when a drive names a free vehicle, its length is allowed, and the instructor is free, at work and not blocked; one row is appended, with those columns |
| ScheduleRules.CreationRefusals | src/services/event/writeModel.ts:73-109 | for a new event of an allowed shape: the instructor first, then the hours, and the vehicle last |
| ScheduleRules.EventEditOverTables | src/services/event/writeModel.ts:114-278 | the same for an edit of an event, for any row read and any row in place: when it succeeds, and every column it writes |
| ScheduleRules.EventEditRefusals | src/services/event/writeModel.ts:136-262 | the first reason to refuse an event edit decides the answer |
| ScheduleRules.EventWindowRefusals | src/services/event/writeConflicts.ts:17-165 | for its window: the instructor first, then the hours, then the participants |
| ScheduleRules.DeletionOverTables | src/services/event/deleteEvent.ts:8-30 | deleting clears the flag of an event that was read as active, and changes nothing else |
| ScheduleRules.StatusOverTables | src/services/event/bulkStatus.ts:90-93 | a bulk change sets the status of the events named and no other column |
| ScheduleRules.AssignmentOverTables | src/services/event/participants.ts:32-103 | students are assigned exactly when the list repeats none, the event read was an active theory event with places for all, and each new one is free in the window read; the participants are then the old and the new ones |
| ScheduleRules.ReplacementOverTables | src/services/event/participants.ts:105-160 | replacing, likewise; the participants are then the list |
| ScheduleRules.StudentRefusals | src/services/event/participants.ts:32-160 | the first reason to refuse the students decides the answer |
| ScheduleRules.RemovalOverTables | src/services/event/participants.ts:185-209 | a student is removed exactly from an active theory event in which the student takes part |
| ScheduleRules.MissingEvent | src/services/event/participants.ts:32-209 | so are edits of an unknown event and of its participants |
| ScheduleRules.CoursePatchOverTables | src/services/course/commands.ts:112-288 | kind and hours change exactly while the course is not deleted and nobody is enrolled and no lesson or event belongs to it; a patch that changes neither always succeeds |
| ScheduleRules.MissingCourse | src/services/course/commands.ts:112-140 | and patches of an unknown course |
| ScheduleSafety.CreateEventIsExact | src/services/event/writeModel.ts:73-109 | the same for a new event |
| ScheduleEvents.UpdateEventIsExact | src/services/event/writeModel.ts:114-278 | for any row read and any row in place an event edit succeeds exactly when the rules allow it and everybody it looks at is free; it then writes every merged column to the row in place and keeps that row's participants |
| ScheduleEvents.EditIsSafeExactly | src/services/event/writeModel.ts:213-275 | an accepted edit keeps the schedule free of overlap exactly when the people and the vehicle it did not look at are free in the window it writes |
| ScheduleEvents.EditReactivationIsExact | src/services/event/writeModel.ts:213-275 | a cancelled event put back by an edit of nothing else keeps it exactly when all its resources are free in its window |
| ScheduleEvents.AssignIsExact | src/services/event/participants.ts:32-103 | assigning succeeds exactly when the students are distinct, the event read was an active theory event with enough places and every new student is free in the window read; then exactly those are added to the row in place |
| ScheduleEvents.ReplaceIsExact | src/services/event/participants.ts:105-160 | replacing, likewise; the participants are then exactly the named students |
| ScheduleEvents.ParticipantsAreSafeExactly | src/services/event/participants.ts:55-103 | new participants keep the schedule free of overlap exactly when they are free in the window of the row in place |
| ScheduleEvents.ReactivationIsExact | src/services/event/bulkStatus.ts:90-93 | a status given to any set of events keeps it exactly when it cancels, or every event put back fits among all others, the others put back with it included |
| ScheduleStaleReads.ReactivationCanOverlap | src/services/event/bulkStatus.ts:90-93 | a run from an empty school in which a cancelled meeting is put back over a lesson booked in its hour |
| ScheduleStaleReads.StaleEditCanOverlap | src/services/event/writeModel.ts:119-134 | a run in which a patch of the capacity, read before the meeting was cancelled and its hour booked, puts the meeting back |
| ScheduleStaleReads.StaleAssignmentCanOverlap | src/services/event/participants.ts:38-90 | a run in which a student is checked against the hour of a meeting that has been moved |
| ScheduleStaleReads.StaleAssignmentCanExceedCapacity | src/services/event/participants.ts:38-79 | a run in which two students enter a meeting whose places have been cut to one |
| ScheduleRowConditions.EditRowsAreExact | src/services/event/writeModel.ts:213-275 | for a row read and a row in place, an edit breaks no schedule at all exactly when it runs every check, leaves nothing active, or the row in place is not cancelled, has the same instructor, contains the window and, for an unchecked vehicle, has that vehicle |
| ScheduleRowConditions.AssignRowsAreExact | src/services/event/participants.ts:55-103 | an assignment breaks no schedule at all exactly when the row in place is not active or lies inside the window read |
| ScheduleRowConditions.ReplaceRowsAreExact | src/services/event/participants.ts:105-160 | the same for a replacement |
| ScheduleRowConditions.AssignPlacesAreExact | src/services/event/participants.ts:55-79 | an assignment never overfills the event exactly when the capacity read is no larger than the one in place |
| ScheduleRowConditions.ReplacePlacesAreExact | src/services/event/writeConflicts.ts:117-132 | the same for a replacement |
| ScheduleSafety.WriteRow | src/services/lesson/scheduleConflicts.ts:24-88 | writing one row keeps the schedule free of overlap exactly when the new row fits among the others |
| SchedulePackage.RunsStayWithinPackages | src/lib/lesson-scheduling.ts:14-44 | over every run the rounded minutes of a student's uncancelled practice lessons never exceed the hours of a practical or extra course |
| SchedulePackage.WriteKeepsPackages | src/lib/lesson-scheduling.ts:123-158 | each single write keeps that |
| SchedulePackage.PatchCourseKeeps | src/services/course/commands.ts:163-183 | a course patch keeps it: hours and kind change only while nothing uses the course |
| SchedulePackage.BookedAfterWrite | src/lib/lesson-scheduling.ts:14-44 | changing one lesson changes a student's booked minutes by that lesson's share, old share out, new share in |
| SchedulePackage.FinalBookingUsesUpThePackage | src/services/schedule-validation/policy.ts:117-171 | a booking in REMAINING_PACKAGE mode had exactly its own minutes left and leaves exactly zero |
| ScheduleRules.OtherWrites | src/services/course/commands.ts:34-110 | a course is added under a new id; hours, blocks and settings may be replaced as a whole between any two writes |
| ScheduleTables.HoursOverTables | src/services/instructor-availability/windows.ts:137-231 | on whole minutes the hours check passes exactly when the request is not empty, lies within one day and its working window, and meets no block of the instructor, no uncancelled lesson and no running event, those excepted left out; otherwise the answer says which |
| ScheduleTables.NoOverlapMeans | src/services/lesson/scheduleConflicts.ts:24-88 | the invariant of the writes says that no two uncancelled rows that share an instructor, a student or a vehicle overlap, where only drives take a vehicle |
| ScheduleTables.PackageCheckMeans | src/lib/lesson-scheduling.ts:123-158 | a lesson fits the package exactly when it is not empty and, with what is booked, not longer than the hours of a practical or extra course |
| ScheduleTables.PackageMeans | src/lib/lesson-scheduling.ts:14-44 | booked minutes are the rounded lengths of the undeleted, uncancelled practice lessons of the student in the course |
| ScheduleTables.RoundingMeans | src/lib/lesson-scheduling.ts:30-38 | the length of a lesson counts as its nearest minute, halves up |
| ScheduleTables.FinalCheckMeans | src/services/schedule-validation/policy.ts:117-171 | a final lesson takes exactly the minutes left, at least the shortest final and less than an ordinary lesson, where the school allows it |
| ScheduleTables.LengthMeans | src/services/schedule-validation/policy.ts:39-115 | practice lessons take 60 to 120 minutes and theory events 45 to 90, unless the settings of the school say otherwise |
| ScheduleHours.ClippingIsExact | src/services/instructor-availability/time.ts:99-116 | a row clipped at midnight on either side meets a request of the day exactly when the row itself does |
| ScheduleUndo.CancelFreesExactly | src/services/lesson/cancelLessons.ts:12-82 | cancelling frees the resources and the package share of that lesson and of no other |
| ScheduleUndo.CancelUndoesBooking | src/services/lesson/cancelLessons.ts:84-163 | booking and cancelling leaves every resource with the commitments and every student with the booked minutes it had |
| ScheduleUndo.SameAnswers | src/lib/lesson-scheduling.ts:74-118 | schedules with the same commitments answer every conflict query alike |
| ScheduleUndo.DeleteUndoesCreation | src/services/event/writeModel.ts:33-112 | a new event that is deleted leaves every resource as it was |
| ScheduleUndo.RemoveUndoesAssignment | src/services/event/participants.ts:185-209 | assigning a student and removing the same one gives back the very same tables, whatever rows the two requests read |
| ScheduleUndo.LastReplacementWins | src/services/event/participants.ts:105-160 | after a successful replacement, a second one behaves as if the first had not happened, whatever rows the two read |
| ScheduleStore.Store.CreatePracticeLesson | src/services/lesson/bookingRules.ts:96-185 | guards and insertion in place: the new tables or the error of the specification, and nothing else changed |
| ScheduleStore.Store.FindAvailableVehicle | src/services/lesson/vehicleAvailability.ts:104-156 | the loop over the candidates returns the specified vehicle |
| ScheduleStore.Store.UpdateLesson | src/services/lesson/writeModel.ts:23-189 | guarded in-place edit as specified; on success the row has the values the patch names and keeps every other column |
| ScheduleStore.Store.CancelLesson | src/services/lesson/cancelLessons.ts:12-82 | guarded in-place cancellation as specified |
| ScheduleStore.Store.CreateEvent | src/services/event/writeModel.ts:33-112 | guards and insertion in place as specified |
| ScheduleStore.Store.UpdateEvent | src/services/event/writeModel.ts:136-278 | merge of the row read, guards and in-place update of the row in place as specified |
| ScheduleStore.Store.EventRequest | src/services/event/writeModel.ts:114-278 | a request on an event reads the row, others commit any writes, and its transaction then is one step after them with the row as it was read; an unknown event changes nothing |
| ScheduleStore.Store.SplitStudents | src/services/event/participants.ts:62-73 | the loop returns each new student once and counts exactly those already there |
| ScheduleStore.Store.FindConflicting | src/services/event/conflicts.ts:5-52 | the collected set is exactly the candidates with another active lesson or event in the window |
| ScheduleStore.Store.AssignStudents | src/services/event/participants.ts:32-103 | in-place assignment against the row read, as specified, with the counts of assigned and skipped |
| ScheduleStore.Store.ReplaceStudents | src/services/event/participants.ts:105-160 | removing and adding rows against the row read, as specified |
| ScheduleStore.Store.PatchCourse | src/services/course/commands.ts:112-288 | the field-by-field patch of kind and hours as specified |
| ScheduleStore.Store.RunScheduleWriteTransaction | src/services/schedule-validation/transaction.ts:8-32 | at most three attempts; whatever others commit meanwhile, the write takes effect once, as one step after them, or not at all, and three conflicts leave only the others' writes |
| TimeWindows.SubtractWindows | src/services/instructor-availability/time.ts:44-67 | the cursor loop computes the specified subtraction |
| TimeWindows.SubtractMinutes | src/services/instructor-availability/time.ts:44-67 | the returned windows cover exactly the minutes of the base that no block covers |
| TimeWindows.SubtractFits | src/services/instructor-availability/time.ts:44-67 | a non-empty request fits one returned window exactly when it lies in the base and overlaps no block |
| TimeWindows.SubtractOrdered | src/services/instructor-availability/time.ts:44-67 | the returned windows are non-empty, sorted and disjoint |
| TimeWindows.SubtractIsMaximalFree | src/services/instructor-availability/time.ts:44-67 | they are all the maximal free windows and no others |
| TimeWindows.SubtractIgnoresOrder | src/services/instructor-availability/time.ts:48-48 | neither order nor repetition of the blocks matters |
| TimeWindows.SubtractInStages | src/services/schedule-validation/conflicts.ts:53-60 | subtracting a second list window by window is one subtraction of both lists |
| TimeWindows.SubtractFromAllInStages | src/services/schedule-validation/vehicleWindows.ts:93-107 | the same from a list of windows |
| TimeWindows.ThreeStagesInAnyOrder | src/services/schedule-validation/vehicleWindows.ts:93-107 | from any list of windows, instructor, student and vehicle blocks subtracted in turn and in any order leave what one subtraction of all the blocks leaves |
| TimeWindows.SplitWindowIntoSlots | src/services/instructor-availability/time.ts:69-82 | consecutive slots of the given length from the start of the window, as many as fit |
| AvailabilityOptions.BuildScheduleAvailabilityOptions | src/services/schedule-validation/optionsMatrix.ts:13-53 | the nested loops list exactly the pairs with a start on the start grid, an end on the end grid, an allowed length, and both inside one window |
| AvailabilityOptions.WindowOptions | src/services/schedule-validation/optionsMatrix.ts:24-50 | the same for one window, starts and ends in increasing order |
| AvailabilityOptions.EndTimes | src/services/schedule-validation/optionsMatrix.ts:32-42 | the inner loop lists exactly the end steps up to the limit |
| AvailabilityOptions.CeilTo | src/services/schedule-validation/optionsMatrix.ts:25-27 | the first start is the smallest multiple of the step that is not before the window, for negative values too |
| LessonEditOptions.OffersPassTheWriteChecks | src/services/schedule-validation/options.ts:309-377 | every start and end offered passes the duration, package, student, instructor, hours and vehicle checks of the edit on the same tables, so an edit asking for it succeeds while the lesson is editable |
| LessonEditOptions.OfferedEditExactly | src/services/schedule-validation/options.ts:341-377 | offered and saved at the same instant, the whole edit succeeds exactly when the lesson may be edited at all and, if time or instructor change, the day is not over and the offer does not start in the current minute |
| LessonEditOptions.CurrentMinuteIsOfferedAndRefused | src/services/lesson/writeModel.ts:23-189 | a concrete schedule and instant at which the current minute is offered and the edit to it refused |
| LessonOfferLaw.OffersOverTables | src/services/schedule-validation/options.ts:309-423 | a pair of minutes is offered exactly when it starts on a step, has an allowed length in steps of fifteen that the package still holds, lies in the working hours, is not past, and meets no block or other row of the instructor, no other row of the student and no other row of the vehicle |
| LessonOfferLaw.OthersMean | src/services/schedule-validation/options.ts:392-423 | the package counts, for the options, every other lesson of the student in the course that is not cancelled, of whatever type |
| LessonEditOptions.OptionsCountMore | src/services/schedule-validation/options.ts:392-423 | the minutes the options count as used are at least those the booking check counts |
| LessonEditOptions.StageFits | src/services/schedule-validation/conflicts.ts:12-61 | one stage of subtraction keeps exactly the requests that meet none of its rows |
| LessonEditOptions.GroupByVehicle | src/services/schedule-validation/vehicleWindows.ts:81-90 | one pass over the rows groups the blocks of the day by vehicle, rows without a vehicle skipped |
| LessonEditOptions.ResolveAvailableVehicleWindows | src/services/schedule-validation/vehicleWindows.ts:20-110 | the map holds exactly the vehicles with at least one option, each with its free windows |
| LessonEditOptions.GetLessonEditAvailabilityOptions | src/services/schedule-validation/options.ts:228-390 | the staged computation lists exactly the offered pairs, and none without a named vehicle of the school |
| BusyIntervals.AppendBusyOnPolishDay | src/services/school-availability/busyLessons.ts:14-50 | the loop with its binary search ends for every offset function and appends one entry per segment |
| BusyIntervals.FindChange | src/services/school-availability/busyLessons.ts:30-41 | the binary search finds an instant at which the offset leaves its first value |
| BusyIntervals.SegmentsTile | src/services/school-availability/busyLessons.ts:26-49 | the segments tile the interval and their minutes add up to its length, whatever the offsets do |
| BusyIntervals.UniformExactlyWithoutReturn | src/services/school-availability/busyLessons.ts:26-49 | every segment of every interval has one offset exactly when no offset comes back after another |
| BusyIntervals.DayIsBlockedExactly | src/services/school-availability/dateHelpers.ts:34-46 | within a day a slot is blocked exactly when the clock shows one of its minutes at some busy instant, also across a change of offset |
| BusyIntervals.SlotsAreBlockedExactly | src/services/school-availability/busyLessons.ts:83-104 | over the requested days a slot is blocked exactly when some instant of some lesson has the slot's date and one of its minutes |
| BusyIntervals.LoadStudentBusyIntervals | src/services/school-availability/busyLessons.ts:52-105 | the loops over lessons and days produce the specified entries |
| SeedPlanner.SeedSchedulePlanner.Reserve | src/services/devResetSeed/schedulePlanner.ts:53-141 | the search and the writes in place give the specified outcome; a reserved slot is appended for the instructor, each student and the vehicle and for nothing else, a refusal changes nothing |
| SeedLaw.CallsAreExact | src/services/devResetSeed/schedulePlanner.ts:53-141 | after any calls a request gets a slot on the grid of the first of 120 days that has one left, where a slot is left if it overlaps no earlier slot of a request with the same instructor, vehicle or one of the students; it is refused exactly for its length, calendar or step, or when no day has one |
| SeedLaw.CallsGoAround | src/services/devResetSeed/schedulePlanner.ts:94-126 | within that day it is the first one left when the grid is tried from the slot index around |
| SeedPlanner.ResolveWindowOrder | src/services/devResetSeed/schedulePlanner.ts:143-183 | a leave closes the day, otherwise the first exception of the date decides, and only without one the weekly hours |
| SeedLaw.SharingCallsAreApart | src/services/devResetSeed/schedulePlanner.ts:118-134 | over every sequence of calls two requests that share an instructor, a student or a vehicle never get slots that overlap |
| SeedPlanner.RunsStayNonEmpty | src/services/devResetSeed/schedulePlanner.ts:98-116 | and of positive length, when later wall-clock times of a day are later instants |
| SeedLaw.ReservationsAreSlots | src/services/devResetSeed/schedulePlanner.ts:128-132 | a reserved slot is added once to the instructor, to each student and to the vehicle of its request and to nothing else, over every sequence of calls |
| SeedPlanner.StartsAreTheGrid | src/services/devResetSeed/schedulePlanner.ts:86-93 | the starts of a day are exactly the steps from the start of the window that leave room for the slot |
| SeedPlanner.DaySlotIsFirstInRotation | src/services/devResetSeed/schedulePlanner.ts:94-126 | within its day the slot is the first one without a conflict when the grid is tried from the slot index around |
| SeedPlanner.RotatedElements | src/services/devResetSeed/schedulePlanner.ts:94-98 | the rotated order visits every start, as many positions as there are starts |
| SeedIntegrity.AssertSeedScheduleIntegrity | src/services/devResetSeed/scheduleIntegrity.ts:41-112 | accepts exactly when every counted entry has a positive length, every counted event an id, and the windows of every resource are pairwise disjoint |
| SeedIntegrityLaw.AcceptedExactly | src/services/devResetSeed/scheduleIntegrity.ts:41-112 | over the rows: accepted exactly when counted rows have a positive length and counted events an id, no two counted rows that share an instructor, a student or a vehicle overlap, and no student is listed twice for a counted event |
| SeedIntegrity.NeighboursDecide | src/services/devResetSeed/scheduleIntegrity.ts:101-112 | after sorting, comparing neighbours decides pairwise disjointness |
| SeedIntegrity.PairwiseIsBag | src/services/devResetSeed/scheduleIntegrity.ts:101-112 | for non-empty windows disjointness does not depend on their order |
| SeedIntegrity.CollectEvents | src/services/devResetSeed/scheduleIntegrity.ts:65-89 | the loop adds each counted event once to its instructor, its vehicle and once per participant row |
| SeedIntegrity.GroupParticipants | src/services/devResetSeed/scheduleIntegrity.ts:43-49 | the map lists the students of each event in row order |
| SeedIntegrity.PlannerDataIsAccepted | src/services/devResetSeed/schedulePlanner.ts:118-134 | data whose windows are, resource by resource, reservations of a planner run is always accepted |
| SeedIntegrity.ReservedLessonKeepsFromPlanner | src/services/devResetSeed/scheduleIntegrity.ts:51-63 | adding a lesson for a slot just reserved for its resources keeps the data within the reservations |
| SeedIntegrity.ReservedEventKeepsFromPlanner | src/services/devResetSeed/scheduleIntegrity.ts:65-89 | the same for an event with its participants |
| SeedIntegrity.ReservedBlockKeepsFromPlanner | src/services/devResetSeed/scheduleIntegrity.ts:91-101 | the same for a block |
| Accounts.RunsAgreeExactly | src/services/manager-accounts/emailChange.ts:11-205 | in every run of changes and reconciles, however many overlap, wherever they stop and whatever the Auth provider answers and when, at every moment at most one change is open, with none open the two stores agree, and with one open the local email is the old one and Auth's the old or the new one, exactly when every step fits |
| Accounts.StepAgreesExactly | src/services/manager-accounts/emailChange.ts:11-205 | one step keeps that exactly when it fits: it writes nothing, or its action is still open and Auth holds the email the write goes by, or it writes what is there already |
| Accounts.EmailsAgree | src/services/manager-accounts/emailChange.ts:33-204 | every step does fit, so the emails always agree, in every run in which no reconcile starts beside another email request and Auth answers truly and changes nothing late |
| Accounts.SteadyStays | src/services/manager-accounts/emailChange.ts:41-133 | the invariant behind that: each write, reply, failure or stop leaves at most one request, at work on the one open change, with Auth as its stage supposes |
| Accounts.OverlappingReconcilesCanDisagree | src/services/manager-accounts/emailChange.ts:159-192 | a run in which two reconciles read the same change and the second commits after the next change has gone through: nothing is open and the stores disagree |
| Accounts.ReconcileDuringChangeCanDisagree | src/services/manager-accounts/emailChange.ts:159-193 | a run in which a reconcile gives up a change that then reaches Auth |
| Accounts.ErrorAfterUpdateDisagrees | src/services/manager-accounts/emailChange.ts:85-94 | a run in which Auth stores the email, answers with an error and the change is marked failed |
| Accounts.LateUpdateDisagrees | src/services/manager-accounts/emailChange.ts:85-94 | a run in which the process stops with the update on its way, a reconcile gives the change up, and the update arrives |
| Accounts.DiffersOnlyWhenClosed | src/services/manager-accounts/emailChange.ts:171-193 | while every step fits, a reconcile finds an Auth email that is neither the old nor the new one only if its action has been closed meanwhile |
| Accounts.OverlappingReconcileCanDiffer | src/services/manager-accounts/emailChange.ts:171-193 | a run in which it does |
| Accounts.DiffersIsUnreachable | src/services/manager-accounts/emailChange.ts:171-193 | with reconciles alone and true answers it never does |
| Accounts.ReconcileCloses | src/services/manager-accounts/emailChange.ts:159-204 | from every state in which the emails agree and a change is open, other requests running or not, a reconcile whose reads and writes follow each other and commit closes it, completed or failed according to Auth, and the stores agree on what Auth has |
| Accounts.OpenReconcileCloses | src/services/manager-accounts/emailChange.ts:171-204 | however other steps came between, its write does so if the action is still open and Auth as it was read |
| EmailChangeLaw.StoresAgree | src/services/manager-accounts/emailChange.ts:11-205 | while every step fits, the local email and the one at Auth are the same whenever no change is open, at most one is open, and with one open they are its old email and its old or new one, the old one only while it is pending |
| EmailChangeLaw.BeginIsExact | src/services/manager-accounts/emailChange.ts:33-73 | a change begins exactly for an account that is not archived, with no change open, no reset running and another email; it records the old and the new one |
| EmailChangeLaw.ReconcileIsExact | src/services/manager-accounts/emailChange.ts:159-169 | a reconcile takes up the latest open change, and does nothing without one |
| EmailChangeLaw.ReplyIsExact | src/services/manager-accounts/emailChange.ts:85-94 | Auth stores the new email, answers with an error, or both |
| EmailChangeLaw.ReadIsExact | src/services/manager-accounts/emailChange.ts:171-193 | reading the new email leads to finishing, the old one to giving up, anything else to the end of the reconcile |
| EmailChangeLaw.MarksAreExact | src/services/manager-accounts/emailChange.ts:90-124 | each mark sets the status of the action of its request and nothing else |
| EmailChangeLaw.FinishIsExact | src/services/manager-accounts/emailChange.ts:11-31 | the last transaction sets the local email, revokes the sessions and completes the action; when it fails a change asks for repair and a reconcile ends |
| EmailChangeLaw.StopIsExact | src/services/manager-accounts/emailChange.ts:85-94 | a request may stop anywhere, and an update it had sent may still be made, once |
| EmailChangeLaw.OutOfTurn | src/services/manager-accounts/emailChange.ts:33-205 | a step out of the order of its request changes nothing |
| AccountAccess.AllowedExactly | src/middleware/auth.middleware.ts:89-129 | in every run a session is let in exactly when this account registered it, new, while it was active with no change open, no request has shut it out since, and no change is open now |
| AccountAccess.NeverAcceptedAgain | src/lib/accountSessions.ts:39-87 | a session registered before a deactivation by manager or administrator, an archive, a completed email change, a recovery or its logout is refused ever after, across a later unblock and steps between the reads of one check |
| AccountAccess.DecisionIsExact | src/middleware/auth.middleware.ts:89-129 | each decision in terms of the columns, the account before the session before the open change |
| AccountAccess.ShutsExactly | src/services/managerAccounts.service.ts:151-332 | each of those requests, named by what it asks and not by what it changes, leaves every own session dead; every other step leaves a live session live |
| AccountAccess.ChangesShut | src/services/managerAccounts.service.ts:151-332 | every step that changes status, archive flag or email is one of them |
| AccountAccess.SetActiveIsExact | src/services/managerAccounts.service.ts:151-202 | a status change takes effect exactly when the account is not archived, no change is open, no reset runs and the status differs; it then revokes every session |
| AccountAccess.ArchiveIsExact | src/services/managerAccounts.service.ts:278-332 | archiving, likewise, unless commitments remain |
| AccountAccess.AdminDeactivateIsExact | src/services/instructor/commands.ts:442-449 | the administrator's deactivation clears the flag of an unarchived account and revokes nothing |
| AccountAccess.RegistrationIsExact | src/lib/accountSessions.ts:63-87 | a session id is taken once, by whichever account registers it first |
| AccountAccess.StepKeepsDead | src/services/instructor/commands.ts:442-445 | no later step brings such a session back |
| AccountAccess.OpenChangeShutsOut | src/lib/accountSessions.ts:53-61 | while a change is open no session is accepted and none can be registered |
| AccountService.AccountStore.GetDecision | src/middleware/auth.middleware.ts:89-129 | the checks in order give the specified decision |
| AccountService.AccountStore.RegisterSession | src/lib/accountSessions.ts:63-87 | in-place registration as specified |
| AccountService.AccountStore.SetManagerAccountActive | src/services/managerAccounts.service.ts:151-202 | changes the flag and revokes every session in one step, or refuses and changes nothing |
| AccountService.AccountStore.DeactivateByAdmin | src/services/instructor/commands.ts:442-449 | when it finds an active account it clears its flag and nothing else; otherwise it changes nothing |
| AccountService.AccountStore.ArchiveManagerAccount | src/services/managerAccounts.service.ts:278-332 | archives and revokes, or refuses and changes nothing |
| AccountService.AccountStore.ChangeManagerAccountEmail | src/services/manager-accounts/emailChange.ts:33-145 | whichever write it stops after, the call is a run of the specified steps; done means both stores have the new email and all sessions are revoked, refused means nothing changed |
| AccountService.AccountStore.ReconcileManagerAccountEmail | src/services/manager-accounts/emailChange.ts:147-205 | a run of the specified steps that never changes Auth and refuses exactly when nothing is open; from agreeing stores done means nothing is open and they agree, and it is done whenever Auth answers, the local write commits and the process lives |
| AccountService.AccountStore.FinishEmailAction | src/services/manager-accounts/emailChange.ts:11-31 | email, sessions and action change together or not at all |
| SecurityLogPages.WalkVisitsAll | src/services/security-events/list.ts:126-184 | following next cursors over a fixed log lists every matching row exactly once, newest first |
| SecurityLogPages.GrowingWalkIsSafe | src/services/security-events/list.ts:126-145 | with rows inserted between the requests a walk to older rows is strictly descending, so repeats none, and once finished has skipped none that was there at the start |
| SecurityLogPages.NextThenPreviousReturns | src/services/security-events/list.ts:146-184 | next and then previous returns the same rows and next cursor, and the same previous cursor exactly unless the page was asked for with a cursor newer than every row |
| SecurityLogPages.AnchoredPageReturns | src/services/security-events/list.ts:167-181 | with cursors the pages hand out, the whole page returns |
| SecurityLogPages.NewerPageReturns | src/services/security-events/list.ts:146-184 | a page asked for with a previous cursor at any row returns in every field exactly when some row is not newer than the cursor; otherwise the next page is empty and names no way back |
| LogPageLaw.OlderPageIsExact | src/services/security-events/list.ts:126-184 | an older page, or the first, shows the newest rows before its cursor, as many as there are up to the limit, newest first; every row left out is older; it points on exactly if some are left out, from its last row, and back from its first one if it was asked for with a cursor |
| LogPageLaw.NewerPageIsExact | src/services/security-events/list.ts:126-184 | a newer page shows the oldest rows after its cursor, newest first; every row left out is newer; it points back exactly if some are left out, and always on |
| SecurityLogPages.OlderPage | src/services/security-events/list.ts:136-145 | an older page is the window of at most limit rows just below its cursor, with cursors at its ends |
| SecurityLogPages.NewerPage | src/services/security-events/list.ts:146-149 | a newer page is the window of at most limit rows just above its cursor, reversed |
| SecurityLogPages.ListManagerSecurityLogs | src/services/security-events/list.ts:126-184 | query, cut, reversal and cursor rules give the specified page |
| LoginRateLimit.AllOrNone | src/services/loginRateLimit.ts:18-37 | an attempt is refused exactly when some bucket is full and then changes nothing; otherwise it counts once in every bucket named and in no other |
| LoginRateLimit.CountsNeverExceedExactly | src/services/loginRateLimit.ts:25-36 | over all runs no bucket counts above its limit exactly when every limit is at least one, as the limits 5 and 20 of the login route are |
| LoginRateLimit.AtMostTwiceTheLimit | src/services/loginRateLimit.ts:23-36 | if times go back by at most some span, an interval a window less that span long, both ends included, holds at most twice the limit of successes of any bucket |
| LoginRateLimit.TwiceTheLimitExactly | src/services/loginRateLimit.ts:23-36 | and for limits of three or more only intervals of at most that length always do |
| LoginRateLimit.CrowdExceeds | src/services/loginRateLimit.ts:23-36 | for every such limit, window and span, a run in which a longer interval holds more than twice the limit |
| LoginRateLimit.Limiter.ReserveLoginAttempt | src/services/loginRateLimit.ts:14-40 | the loop in key order, with roll-back on a refusal, is the specified transaction |

## Left out

- LoginDetectionLaw.EnoughFailuresRaiseAnAlarm: one detection key at a time, whose log is the failures that enqueued it; a `hash:` subject also matches later failures of a known user in the code. Legacy alarms without a rule id and malformed scopes are not modelled.
- LoginDetector.Detector.ProcessOne: no deletion falls between its queries; those runs are `LoginDetection.WorkAmidStep`.
- LoginDetector.Detector.RecordSecurityEvent: a repeated attempt id, refused by a unique index and answered with the stored row, is not a step.
- ScheduleEvents.RunsHaveNoOverlap: asks that the rows of the events allow each event write, which the code does not ensure; RunsHaveNoOverlapExactly has no such condition.
- ScheduleEvents.RunsStayWithinCapacity: asks that the capacity read is no larger than the one in place, which the code does not ensure; RunsStayWithinCapacityExactly has no such condition.
- LessonEditOptions.OffersPassTheWriteChecks: times are whole minutes, working windows end before midnight, as their stored clock times do, and the shortest practice duration is positive, as `prisma/migrations/20261014180000_short_final_practice_lesson/migration.sql:7` ensures; the same holds for OfferedEditExactly and `LessonOfferLaw.OffersOverTables`.
- ScheduleTables.HoursOverTables: the rows of the instructor and the request are on whole minutes; the same holds for the laws of `ScheduleRules` that look at hours.
- SeedPlanner.RunsStayNonEmpty: assumes that later wall-clock times of a day are later instants, which a clock change can break.
- AccountService.AccountStore.ReconcileManagerAccountEmail: within one call no other request takes a step, and the same goes for a change; the interleavings are those of the step model in `Accounts`.
- Accounts.EmailsAgree: asks that a reconcile starts alone and that Auth answers truly and makes no change late, which the code does not ensure; RunsAgreeExactly has no such condition.
- LoginRateLimit.AtMostTwiceTheLimit: takes how far transaction times go back as a parameter, because they do go back: a transaction's time is that of its start and its lock comes later; only its timeout of 1500 ms (`src/services/loginRateLimit.ts:39`) limits this. Needs requests that name a bucket once, as the login route's do.
- Role and ownership checks, qualification of instructors and vehicles (a parameter says which vehicles are usable), school membership, booking-date and working-day rules, and the course-changed check of a booking.
- Clocks, the Auth provider, HMAC and cursor signatures: parameters or opaque.
- The text of errors, audit events, mails, response mappers, filters of the log (a set of matching rows stands for them), and the options for events and for new lessons.
- Deleting rows of the schedule and of the limiter, and course fields other than kind, hours, enrolment, activity and deletion.
- Students of an event replacement are checked as a whole; the messages per student are not modelled.
