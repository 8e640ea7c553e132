/** The writes read off the tables: which request is refused and why, and which columns of which
    row an accepted one changes. */
module ScheduleRules {
  import opened Chronology
  import opened TimeWindows
  import opened Schedule
  import opened ScheduleSafety
  import opened ScheduleTables

  /** Rows of the lesson table other than `i`, and all other tables, are the same. */
  predicate OnlyLesson(s: Schedule, t: Schedule, i: nat) {
    && t.events == s.events && t.courses == s.courses && t.hours == s.hours && t.blocks == s.blocks
    && t.settings == s.settings && |s.lessons| <= |t.lessons|
    && forall j | 0 <= j < |s.lessons| && j != i :: t.lessons[j] == s.lessons[j]
  }

  predicate OnlyEvent(s: Schedule, t: Schedule, i: nat) {
    && t.lessons == s.lessons && t.courses == s.courses && t.hours == s.hours && t.blocks == s.blocks
    && t.settings == s.settings && |s.events| <= |t.events|
    && forall j | 0 <= j < |s.events| && j != i :: t.events[j] == s.events[j]
  }

  // ---------------------------------------------------------------- booking a lesson

  predicate CourseOpen(s: Schedule, course: Id) {
    course in s.courses && s.courses[course].active && !s.courses[course].deleted
  }

  /** The course and the length of the lesson are right for this way of booking. */
  predicate BookingAllowed(s: Schedule, course: Id, student: Id, span: Window, choice: VehicleChoice) {
    CourseOpen(s, course)
    && match choice
       case Named(_) => LengthAllowed(s.settings, false, span)
       case AnyOf(_, _, _, remainingPackage) =>
         && s.courses[course].kind != TheoryGroup
         && if remainingPackage then FinalAllowed(s, course, student, span) else LengthAllowed(s.settings, false, span)
  }

  /** Student, package, instructor and hours allow a lesson in the window. */
  predicate WindowAllowed(s: Schedule, course: Id, student: Id, instructor: Id, span: Window, except: Option<nat>)
    requires course in s.courses
  {
    && StudentFree(s, student, span, except, None)
    && PackageSuffices(s, course, student, span, except)
    && InstructorFree(s, instructor, span, except, None)
    && InWorkingHours(s, instructor, span) && Unblocked(s, instructor, span)
  }

  predicate OnClock(s: Schedule, instructor: Id, span: Window) {
    OnMinutes(s, instructor) && span.start % 60_000 == 0 && span.end % 60_000 == 0
  }

  lemma WindowCheckMeans(s: Schedule, course: Id, student: Id, instructor: Id, span: Window, except: Option<nat>)
    requires course in s.courses && OnClock(s, instructor, span)
    ensures var e := LessonWindowError(s, course, student, instructor, span, except);
            && (e.None? <==> WindowAllowed(s, course, student, instructor, span, except))
            && (e == Some(StudentBusy) <==> !StudentFree(s, student, span, except, None))
            && (StudentFree(s, student, span, except, None) && PackageSuffices(s, course, student, span, except) ==>
                  && (e == Some(InstructorBusy) <==> !InstructorFree(s, instructor, span, except, None))
                  && (InstructorFree(s, instructor, span, except, None) && span.start < span.end
                      && span.start / 86_400_000 == span.end / 86_400_000 ==>
                        e == Some(OutsideInstructorHours) || e.None?))
            && (StudentFree(s, student, span, except, None) && !PackageSuffices(s, course, student, span, except) ==>
                  e == Some(if RoundMinutes(span) <= 0 then BadRequest else CourseLimitExceeded))
  {
    StudentQueries(s, student, span, except, None);
    PackageCheckMeans(s, course, student, span, except);
    InstructorQueries(s, instructor, span, except, None);
    HoursOverTables(s, instructor, span, None, except);
  }

  /** A vehicle the booking may take. */
  predicate Takes(s: Schedule, choice: VehicleChoice, v: Id, span: Window) {
    VehicleFree(s, v, span, None, None)
    && match choice
       case Named(w) => v == w
       case AnyOf(candidates, _, usable, _) => v in candidates && v in usable
  }

  /** The booking succeeds exactly when course, length, student, package, instructor and hours
      allow it and there is a vehicle to take; it appends one row: a scheduled practice lesson of
      this student, instructor and course in this window, with such a vehicle. */
  lemma BookingOverTables(s: Schedule, course: Id, student: Id, instructor: Id, span: Window, choice: VehicleChoice)
    requires OnClock(s, instructor, span) && span.start < span.end
    ensures var r := BookLesson(s, course, student, instructor, span, choice);
            && (r.Ok? <==>
                  && BookingAllowed(s, course, student, span, choice)
                  && WindowAllowed(s, course, student, instructor, span, None)
                  && exists v :: Takes(s, choice, v, span))
            && (r.Ok? ==>
                  && OnlyLesson(s, r.value, |s.lessons|) && |r.value.lessons| == |s.lessons| + 1
                  && exists v :: Takes(s, choice, v, span)
                       && r.value.lessons[|s.lessons|]
                          == Lesson(course, student, instructor, Some(v), true, span, Scheduled, false))
  {
    BookingGuards(s, course, student, instructor, span, choice);
    VehicleIsTaken(s, choice, span);
  }

  lemma BookingGuards(s: Schedule, course: Id, student: Id, instructor: Id, span: Window, choice: VehicleChoice)
    requires OnClock(s, instructor, span) && span.start < span.end
    ensures BookingError(s, course, student, instructor, span, choice).None? <==>
              && BookingAllowed(s, course, student, span, choice)
              && WindowAllowed(s, course, student, instructor, span, None)
  {
    LengthMeans(s.settings, false, span);
    if course in s.courses {
      WindowCheckMeans(s, course, student, instructor, span, None);
      FinalCheckMeans(s, course, student, span);
    }
  }

  lemma VehicleIsTaken(s: Schedule, choice: VehicleChoice, span: Window)
    ensures var r := ChooseVehicle(s, choice, span);
            && (r.Ok? <==> exists v :: Takes(s, choice, v, span))
            && (r.Ok? ==> Takes(s, choice, r.value, span))
            && (r.Err? ==> r.error == if choice.Named? then VehicleBusy else NoVehicleAvailable)
  {
    match choice
    case Named(v) =>
      VehicleQueries(s, v, span, None, None);
      assert Takes(s, choice, v, span) <==> VehicleFree(s, v, span, None, None);
    case AnyOf(candidates, preferred, usable, _) =>
      PreferredFirstIsCandidates(candidates, preferred);
      var order := PreferredFirst(candidates, preferred);
      var n := FirstFreeIsFirst(s, order, usable, span);
      forall v ensures VehicleFree(s, v, span, None, None) <==> !VehicleTaken(s, v, span, None, None) {
        VehicleQueries(s, v, span, None, None);
      }
      if n < |order| {
        assert order[n] in order && Takes(s, choice, order[n], span);
      }
      if v :| Takes(s, choice, v, span) {
        var m :| 0 <= m < |order| && order[m] == v;
        assert Usable(s, order[m], usable, span);
      }
  }

  /** The first reason to refuse a booking decides the answer. */
  lemma BookingRefusals(s: Schedule, course: Id, student: Id, instructor: Id, span: Window, choice: VehicleChoice)
    requires OnClock(s, instructor, span) && span.start < span.end
    ensures var r := BookLesson(s, course, student, instructor, span, choice);
            && (r == Err(NotFound) <==> !CourseOpen(s, course))
            && (CourseOpen(s, course) && choice.AnyOf? && s.courses[course].kind == TheoryGroup ==>
                  r == Err(BadRequest))
            && (CourseOpen(s, course) && !(choice.AnyOf? && choice.remainingPackage) ==>
                  !LengthAllowed(s.settings, false, span) ==> r == Err(BadRequest))
            && (BookingAllowed(s, course, student, span, choice) ==>
                  && (r == Err(StudentBusy) <==> !StudentFree(s, student, span, None, None))
                  && (WindowAllowed(s, course, student, instructor, span, None) ==>
                        r.Ok? || r == Err(if choice.Named? then VehicleBusy else NoVehicleAvailable)))
  {
    LengthMeans(s.settings, false, span);
    if course in s.courses {
      WindowCheckMeans(s, course, student, instructor, span, None);
      FinalCheckMeans(s, course, student, span);
    }
    VehicleIsTaken(s, choice, span);
  }

  // ---------------------------------------------------------------- editing a lesson

  /** The value is the one the patch names, or the one in place where it names none. */
  predicate Chosen<T(==)>(field: Option<T>, current: T, value: T) {
    (field.Some? ==> value == field.value) && (field.None? ==> value == current)
  }

  /** The new columns of a lesson as the patch asks for them. */
  predicate AsPatched(l: Lesson, p: LessonPatch, span: Window, instructor: Id, vehicle: Option<Id>) {
    && Chosen(p.start, l.span.start, span.start) && Chosen(p.end, l.span.end, span.end)
    && Chosen(p.instructor, l.instructor, instructor)
    && (if p.vehicle.Some? then vehicle == p.vehicle else vehicle == l.vehicle)
  }

  /** The editor saw the lesson as it is; a change of instructor cannot do without. */
  predicate SeenAsIs(l: Lesson, p: LessonPatch) {
    && (p.instructor.Some? ==> p.seen.Some?)
    && (p.seen.Some? ==>
          p.seen.value.instructor == l.instructor && p.seen.value.span == l.span && p.seen.value.vehicle == l.vehicle)
  }

  predicate MayEdit(l: Lesson, p: LessonPatch, span: Window, instructor: Id, vehicle: Option<Id>, now: int) {
    && l.status == Scheduled && now < l.span.end && vehicle.Some?
    && (instructor != l.instructor ==> l.practice) && SeenAsIs(l, p)
    && (span != l.span || instructor != l.instructor ==> now < l.span.start && now < span.start)
  }

  /** An edit succeeds exactly when the lesson may be edited, a new time has an allowed length, a
      new time or instructor is allowed for student, package, instructor and hours, and after any
      change the vehicle is free; it then sets window, instructor and vehicle of that row, each to
      the value the patch names or to the old one, and no other column of any table. */
  lemma EditOverTables(s: Schedule, i: nat, p: LessonPatch, now: int, span: Window, instructor: Id, vehicle: Option<Id>)
    requires i < |s.lessons| && AsPatched(s.lessons[i], p, span, instructor, vehicle) && OnClock(s, instructor, span)
    ensures var r, l := UpdateLesson(s, i, p, now), s.lessons[i];
            && (r.Ok? <==>
                  && !l.deleted && l.course in s.courses && MayEdit(l, p, span, instructor, vehicle, now)
                  && (span != l.span ==> LengthAllowed(s.settings, false, span))
                  && (span != l.span || instructor != l.instructor ==>
                        WindowAllowed(s, l.course, l.student, instructor, span, Some(i)))
                  && (span != l.span || instructor != l.instructor || vehicle != l.vehicle ==>
                        VehicleFree(s, vehicle.value, span, Some(i), None)))
            && (r.Ok? ==>
                  && OnlyLesson(s, r.value, i) && |r.value.lessons| == |s.lessons|
                  && r.value.lessons[i]
                     == Lesson(l.course, l.student, instructor, vehicle, l.practice, span, l.status, l.deleted))
  {
    var l := s.lessons[i];
    LengthMeans(s.settings, false, span);
    if l.course in s.courses {
      WindowCheckMeans(s, l.course, l.student, instructor, span, Some(i));
    }
    if vehicle.Some? {
      VehicleQueries(s, vehicle.value, span, Some(i), None);
    }
    assert Patched(l, p) == Lesson(l.course, l.student, instructor, vehicle, l.practice, span, l.status, l.deleted);
  }

  lemma EditRefusals(s: Schedule, i: nat, p: LessonPatch, now: int, span: Window, instructor: Id, vehicle: Option<Id>)
    requires i < |s.lessons| && AsPatched(s.lessons[i], p, span, instructor, vehicle)
    ensures var r, l := UpdateLesson(s, i, p, now), s.lessons[i];
            && (r == Err(NotFound) <==> l.deleted || l.course !in s.courses)
            && (!l.deleted && l.course in s.courses ==>
                  && (r == Err(Stale) <==>
                        && l.status == Scheduled && now < l.span.end && vehicle.Some?
                        && (instructor != l.instructor ==> l.practice) && !SeenAsIs(l, p))
                  && (SeenAsIs(l, p) && !MayEdit(l, p, span, instructor, vehicle, now) ==> r == Err(BadRequest)))
  {
    EditGuards(s.lessons[i], p, now, span, instructor, vehicle);
    if s.lessons[i].course in s.courses && vehicle.Some? {
      NeverStale(s, i, Patched(s.lessons[i], p));
    }
  }

  lemma EditGuards(l: Lesson, p: LessonPatch, now: int, span: Window, instructor: Id, vehicle: Option<Id>)
    requires AsPatched(l, p, span, instructor, vehicle)
    ensures var e := EditableError(l, p, now);
            && Patched(l, p).vehicle == vehicle && e in {None, Some(Stale), Some(BadRequest)}
            && (e.None? <==> MayEdit(l, p, span, instructor, vehicle, now))
            && (e == Some(Stale) <==>
                  && l.status == Scheduled && now < l.span.end && vehicle.Some?
                  && (instructor != l.instructor ==> l.practice) && !SeenAsIs(l, p))
  {
    assert Patched(l, p) == Lesson(l.course, l.student, instructor, vehicle, l.practice, span, l.status, l.deleted);
  }

  lemma NeverStale(s: Schedule, i: nat, m: Lesson)
    requires i < |s.lessons| && m.course in s.courses && m.vehicle.Some?
    ensures MoveError(s, i, m) != Some(Stale) && MoveError(s, i, m) != Some(NotFound)
  {
  }

  /** For a lesson that may be edited: the length first, then student, package, instructor and
      hours, and the vehicle last. */
  lemma EditWindowRefusals(s: Schedule, i: nat, p: LessonPatch, now: int, span: Window, instructor: Id,
                           vehicle: Option<Id>)
    requires i < |s.lessons| && AsPatched(s.lessons[i], p, span, instructor, vehicle) && OnClock(s, instructor, span)
    requires var l := s.lessons[i];
             !l.deleted && l.course in s.courses && MayEdit(l, p, span, instructor, vehicle, now)
    ensures var r, l := UpdateLesson(s, i, p, now), s.lessons[i];
            var long := span == l.span || LengthAllowed(s.settings, false, span);
            var moved := span != l.span || instructor != l.instructor;
            var fits := moved ==> WindowAllowed(s, l.course, l.student, instructor, span, Some(i));
            && (!long ==> r == Err(BadRequest))
            && (long && !fits ==>
                  r.Err? && Some(r.error) == LessonWindowError(s, l.course, l.student, instructor, span, Some(i)))
            && (long && fits && r.Err? ==> r == Err(VehicleBusy))
  {
    var l := s.lessons[i];
    EditGuards(l, p, now, span, instructor, vehicle);
    LengthMeans(s.settings, false, span);
    WindowCheckMeans(s, l.course, l.student, instructor, span, Some(i));
    assert Patched(l, p) == Lesson(l.course, l.student, instructor, vehicle, l.practice, span, l.status, l.deleted);
  }

  lemma MissingLesson(s: Schedule, i: nat, p: LessonPatch, canceller: Option<Id>, now: int)
    requires i >= |s.lessons|
    ensures UpdateLesson(s, i, p, now) == Err(NotFound) && CancelLesson(s, i, canceller, now) == Err(NotFound)
  {
  }

  // ---------------------------------------------------------------- cancelling

  /** A lesson is cancelled exactly when it exists, is scheduled and has not begun; by a student,
      only when it is the student's own practice lesson.  Its status is all that changes. */
  lemma CancelOverTables(s: Schedule, i: nat, canceller: Option<Id>, now: int)
    requires i < |s.lessons|
    ensures var r, l := CancelLesson(s, i, canceller, now), s.lessons[i];
            && (r.Ok? <==>
                  && !l.deleted && l.status == Scheduled && now < l.span.start
                  && (canceller.Some? ==> canceller.value == l.student && l.practice))
            && (r == Err(NotFound) <==> l.deleted) && (r.Ok? || r == Err(NotFound) || r == Err(BadRequest))
            && (r.Ok? ==>
                  && OnlyLesson(s, r.value, i) && |r.value.lessons| == |s.lessons|
                  && r.value.lessons[i]
                     == Lesson(l.course, l.student, l.instructor, l.vehicle, l.practice, l.span, Cancelled, l.deleted))
  {
  }

  // ---------------------------------------------------------------- events

  /** An event is created exactly when a drive names a vehicle, its length is allowed, the
      instructor is free, at work and not blocked, and the vehicle of a drive is free. */
  lemma CreationOverTables(s: Schedule, instructor: Id, course: Option<Id>, kind: EventKind, span: Window,
                           vehicle: Option<Id>, capacity: Option<nat>)
    requires OnClock(s, instructor, span)
    ensures var r := CreateEvent(s, instructor, course, kind, span, vehicle, capacity);
            && (r.Ok? <==>
                  && (kind == Drive ==> vehicle.Some? && VehicleFree(s, vehicle.value, span, None, None))
                  && LengthAllowed(s.settings, kind == Theory, span)
                  && InstructorFree(s, instructor, span, None, None)
                  && InWorkingHours(s, instructor, span) && Unblocked(s, instructor, span))
            && (r.Ok? ==>
                  && OnlyEvent(s, r.value, |s.events|) && |r.value.events| == |s.events| + 1
                  && r.value.events[|s.events|]
                     == Event(instructor, course, kind, span, if kind == Drive then vehicle else None,
                              capacity, true, Planned, {}))
            && ((kind == Drive ==> vehicle.Some?) && LengthAllowed(s.settings, kind == Theory, span) ==>
                  (r == Err(InstructorBusy) <==> !InstructorFree(s, instructor, span, None, None)))
            && (r == Err(VehicleBusy) ==> kind == Drive && !VehicleFree(s, vehicle.value, span, None, None))
            && ((kind == Drive && vehicle.None?) || !LengthAllowed(s.settings, kind == Theory, span) ==>
                  r == Err(BadRequest))
  {
    LengthMeans(s.settings, kind == Theory, span);
    InstructorQueries(s, instructor, span, None, None);
    HoursOverTables(s, instructor, span, None, None);
    if vehicle.Some? {
      VehicleQueries(s, vehicle.value, span, None, None);
    }
  }

  /** A new event of an allowed shape: the instructor first, then the hours, and the vehicle last. */
  lemma CreationRefusals(s: Schedule, instructor: Id, course: Option<Id>, kind: EventKind, span: Window,
                         vehicle: Option<Id>, capacity: Option<nat>)
    requires OnClock(s, instructor, span) && (kind == Drive ==> vehicle.Some?)
    requires LengthAllowed(s.settings, kind == Theory, span)
    ensures var r := CreateEvent(s, instructor, course, kind, span, vehicle, capacity);
            var atWork := InWorkingHours(s, instructor, span) && Unblocked(s, instructor, span);
            && (InstructorFree(s, instructor, span, None, None) && !atWork ==>
                  r == Err(if span.start / 86_400_000 == span.end / 86_400_000 then OutsideInstructorHours
                           else BadRequest))
            && (InstructorFree(s, instructor, span, None, None) && atWork && r.Err? ==> r == Err(VehicleBusy))
  {
    LengthMeans(s.settings, kind == Theory, span);
    InstructorQueries(s, instructor, span, None, None);
    HoursOverTables(s, instructor, span, None, None);
  }

  /** The merged columns of an event as the patch asks for them, over the row that was read. */
  predicate AsMerged(seen: Event, p: EventPatch, m: Event) {
    && Chosen(p.instructor, seen.instructor, m.instructor) && Chosen(p.kind, seen.kind, m.kind)
    && Chosen(p.status, seen.status, m.status)
    && Chosen(p.start, seen.span.start, m.span.start) && Chosen(p.end, seen.span.end, m.span.end)
    && (if p.vehicle.Set? then m.vehicle == p.vehicle.value else m.vehicle == seen.vehicle)
    && (if p.capacity.Set? then m.capacity == p.capacity.value else m.capacity == seen.capacity)
    && m.course == seen.course && m.active == seen.active && m.participants == seen.participants
  }

  lemma MergedMeans(seen: Event, p: EventPatch, m: Event)
    requires AsMerged(seen, p, m)
    ensures Merged(seen, p) == m
  {
  }

  /** Instructor, hours and participants allow the event in the window. */
  predicate EventWindowAllowed(s: Schedule, i: nat, instructor: Id, span: Window, participants: set<Id>) {
    && InstructorFree(s, instructor, span, None, Some(i))
    && InWorkingHours(s, instructor, span) && Unblocked(s, instructor, span)
    && forall x | x in participants :: StudentFree(s, x, span, None, Some(i))
  }

  lemma EventWindowMeans(s: Schedule, i: nat, instructor: Id, span: Window, participants: set<Id>)
    requires OnClock(s, instructor, span)
    ensures EventWindowError(s, instructor, span, Some(i), participants).None? <==>
            EventWindowAllowed(s, i, instructor, span, participants)
  {
    InstructorQueries(s, instructor, span, None, Some(i));
    HoursOverTables(s, instructor, span, Some(i), None);
    forall x ensures StudentFree(s, x, span, None, Some(i)) <==> !ParticipantTaken(s, Some(i), x, span) {
      StudentQueries(s, x, span, None, Some(i));
    }
  }

  /** Why the window is refused: the instructor first, then the hours, then the participants. */
  lemma EventWindowRefusals(s: Schedule, i: nat, instructor: Id, span: Window, participants: set<Id>)
    requires OnClock(s, instructor, span) && span.start < span.end
    ensures var e := EventWindowError(s, instructor, span, Some(i), participants);
            var atWork := InWorkingHours(s, instructor, span) && Unblocked(s, instructor, span);
            && (!InstructorFree(s, instructor, span, None, Some(i)) ==> e == Some(InstructorBusy))
            && (InstructorFree(s, instructor, span, None, Some(i)) && !atWork ==>
                  e == Some(if span.start / 86_400_000 == span.end / 86_400_000 then OutsideInstructorHours
                            else BadRequest))
            && (InstructorFree(s, instructor, span, None, Some(i)) && atWork ==> e in {None, Some(ParticipantBusy)})
  {
    InstructorQueries(s, instructor, span, None, Some(i));
    HoursOverTables(s, instructor, span, Some(i), None);
  }

  /** An event edit succeeds exactly when the event read was active, the merged window is not
      empty, a drive has a vehicle, a new time or a named kind gives an allowed length, a new time
      or instructor is allowed for instructor, hours and participants, the vehicle of a drive is
      free after any change of time, instructor, vehicle or kind, and the participants fit the
      capacity.  It writes those columns to the row in place, a theory event without a vehicle. */
  lemma EventEditOverTables(s: Schedule, i: nat, seen: Event, p: EventPatch, m: Event)
    requires i < |s.events| && AsMerged(seen, p, m) && OnClock(s, m.instructor, m.span)
    ensures var r, row := UpdateEvent(s, i, seen, p), s.events[i];
            var timed := m.span != seen.span || m.instructor != seen.instructor;
            && (r.Ok? <==>
                  && seen.active && m.span.start < m.span.end && (m.kind == Drive ==> m.vehicle.Some?)
                  && (m.span != seen.span || p.kind.Some? ==> LengthAllowed(s.settings, m.kind == Theory, m.span))
                  && (timed ==> EventWindowAllowed(s, i, m.instructor, m.span, row.participants))
                  && (m.kind == Drive && (timed || m.vehicle != seen.vehicle || m.kind != seen.kind) ==>
                        VehicleFree(s, m.vehicle.value, m.span, None, Some(i)))
                  && (m.capacity.Some? ==> |row.participants| <= m.capacity.value))
            && (r.Ok? ==>
                  && OnlyEvent(s, r.value, i) && |r.value.events| == |s.events|
                  && r.value.events[i]
                     == Event(m.instructor, row.course, m.kind, m.span, if m.kind == Drive then m.vehicle else None,
                              m.capacity, row.active, m.status, row.participants))
  {
    MergedMeans(seen, p, m);
    LengthMeans(s.settings, m.kind == Theory, m.span);
    EventWindowMeans(s, i, m.instructor, m.span, s.events[i].participants);
    if m.vehicle.Some? {
      VehicleQueries(s, m.vehicle.value, m.span, None, Some(i));
    }
  }

  predicate EventShapeAllowed(s: Schedule, seen: Event, m: Event, kindGiven: bool) {
    && m.span.start < m.span.end && (m.kind == Drive ==> m.vehicle.Some?)
    && (m.span != seen.span || kindGiven ==> LengthAllowed(s.settings, m.kind == Theory, m.span))
  }

  /** The first reason to refuse an event edit decides the answer. */
  lemma EventEditRefusals(s: Schedule, i: nat, seen: Event, p: EventPatch, m: Event)
    requires i < |s.events| && AsMerged(seen, p, m) && OnClock(s, m.instructor, m.span)
    ensures var r, participants := UpdateEvent(s, i, seen, p), s.events[i].participants;
            var shaped := EventShapeAllowed(s, seen, m, p.kind.Some?);
            var timed := m.span != seen.span || m.instructor != seen.instructor;
            var fits := timed ==> EventWindowAllowed(s, i, m.instructor, m.span, participants);
            && (!seen.active ==> r == Err(NotFound))
            && (seen.active && !shaped ==> r == Err(BadRequest))
            && (seen.active && shaped && !fits ==>
                  r.Err? && Some(r.error) == EventWindowError(s, m.instructor, m.span, Some(i), participants))
            && (seen.active && shaped && fits && r.Err? ==>
                  r.error == if m.capacity.Some? && |participants| > m.capacity.value && VehicleSettled(s, i, seen, m)
                             then CapacityExceeded else VehicleBusy)
  {
    MergedMeans(seen, p, m);
    LengthMeans(s.settings, m.kind == Theory, m.span);
    EventWindowMeans(s, i, m.instructor, m.span, s.events[i].participants);
    if m.vehicle.Some? {
      VehicleQueries(s, m.vehicle.value, m.span, None, Some(i));
    }
  }

  /** The event takes no vehicle, keeps the one it had at the same time, or takes a free one. */
  predicate VehicleSettled(s: Schedule, i: nat, seen: Event, m: Event) {
    m.kind == Drive && m.vehicle.Some?
    && (m.span != seen.span || m.instructor != seen.instructor || m.vehicle != seen.vehicle || m.kind != seen.kind)
    ==> VehicleFree(s, m.vehicle.value, m.span, None, Some(i))
  }

  /** Deleting clears the flag of an event that was read as active. */
  lemma DeletionOverTables(s: Schedule, i: nat, seen: Event)
    ensures var r := DeleteEvent(s, i, seen);
            && (r == Err(NotFound) <==> i >= |s.events|) && (r.Ok? <==> i < |s.events| && seen.active)
            && (r.Ok? || r == Err(NotFound) || r == Err(BadRequest))
            && (r.Ok? ==>
                  var row := s.events[i];
                  && OnlyEvent(s, r.value, i) && |r.value.events| == |s.events|
                  && r.value.events[i] == Event(row.instructor, row.course, row.kind, row.span, row.vehicle,
                                                row.capacity, false, row.status, row.participants))
  {
  }

  lemma StatusOverTables(s: Schedule, ids: set<nat>, status: EventStatus, j: nat)
    requires j < |s.events|
    ensures var t, row := SetEventStatus(s, ids, status), s.events[j];
            && t.lessons == s.lessons && t.courses == s.courses && t.hours == s.hours && t.blocks == s.blocks
            && t.settings == s.settings && |t.events| == |s.events|
            && t.events[j] == Event(row.instructor, row.course, row.kind, row.span, row.vehicle, row.capacity,
                                    row.active, if j in ids then status else row.status, row.participants)
  {
  }

  // ---------------------------------------------------------------- participants

  predicate NoRepeats(students: seq<Id>) {
    forall j, k | 0 <= j < |students| && 0 <= k < |students| && students[j] == students[k] :: j == k
  }

  /** An event as it is but for its participants. */
  predicate Seated(row: Event, now: Event, participants: set<Id>) {
    now == Event(row.instructor, row.course, row.kind, row.span, row.vehicle, row.capacity, row.active, row.status,
                 participants)
  }

  /** Students are assigned exactly when the list repeats none, the event read was an active theory
      event with places for all, and each one who is new is free in the window read. */
  lemma AssignmentOverTables(s: Schedule, i: nat, seen: Event, students: seq<Id>)
    requires i < |s.events|
    ensures var r, row := AssignStudents(s, i, seen, students), s.events[i];
            var people := row.participants + set x | x in students;
            && (r.Ok? <==>
                  && NoRepeats(students) && seen.active && seen.kind == Theory
                  && (seen.capacity.Some? ==> |people| <= seen.capacity.value)
                  && forall x | x in students && x !in row.participants :: StudentFree(s, x, seen.span, None, Some(i)))
            && (r.Ok? ==>
                  && OnlyEvent(s, r.value, i) && |r.value.events| == |s.events|
                  && Seated(row, r.value.events[i], people))
            && (NoRepeats(students) && !seen.active ==> r == Err(NotFound))
            && (NoRepeats(students) && seen.active && seen.kind == Theory && seen.capacity.Some? ==>
                  (r == Err(CapacityExceeded) <==> |people| > seen.capacity.value))
            && (r == Err(StudentBusy) ==> exists x :: x in students && !StudentFree(s, x, seen.span, None, Some(i)))
  {
    var row := s.events[i];
    var added := ToSet(students) - row.participants;
    assert row.participants + ToSet(students) == row.participants + added;
    assert ToSet(students) == set x | x in students;
    forall x ensures StudentFree(s, x, seen.span, None, Some(i)) <==> !ParticipantTaken(s, Some(i), x, seen.span) {
      StudentQueries(s, x, seen.span, None, Some(i));
    }
  }

  lemma ReplacementOverTables(s: Schedule, i: nat, seen: Event, students: seq<Id>)
    requires i < |s.events|
    ensures var r, row := ReplaceStudents(s, i, seen, students), s.events[i];
            && (r.Ok? <==>
                  && NoRepeats(students) && seen.active && seen.kind == Theory
                  && (seen.capacity.Some? ==> |students| <= seen.capacity.value)
                  && forall x | x in students :: StudentFree(s, x, seen.span, None, Some(i)))
            && (r.Ok? ==>
                  && OnlyEvent(s, r.value, i) && |r.value.events| == |s.events|
                  && Seated(row, r.value.events[i], set x | x in students))
  {
    assert ToSet(students) == set x | x in students;
    forall x ensures StudentFree(s, x, seen.span, None, Some(i)) <==> !ParticipantTaken(s, Some(i), x, seen.span) {
      StudentQueries(s, x, seen.span, None, Some(i));
    }
  }

  /** The first reason to refuse the students decides the answer. */
  lemma StudentRefusals(s: Schedule, i: nat, seen: Event, students: seq<Id>)
    requires i < |s.events|
    ensures forall r | r in [AssignStudents(s, i, seen, students), ReplaceStudents(s, i, seen, students)] ::
              && (!NoRepeats(students) ==> r == Err(BadRequest))
              && (NoRepeats(students) && !seen.active ==> r == Err(NotFound))
              && (NoRepeats(students) && seen.active && seen.kind != Theory ==> r == Err(BadRequest))
              && (NoRepeats(students) && seen.active && seen.kind == Theory ==>
                    r.Ok? || r == Err(CapacityExceeded) || r == Err(StudentBusy))
    ensures NoRepeats(students) && seen.active && seen.kind == Theory ==>
              (ReplaceStudents(s, i, seen, students) == Err(CapacityExceeded) <==>
                 seen.capacity.Some? && |students| > seen.capacity.value)
  {
  }

  lemma RemovalOverTables(s: Schedule, i: nat, seen: Event, student: Id)
    requires i < |s.events|
    ensures var r, row := RemoveStudent(s, i, seen, student), s.events[i];
            && (r.Ok? <==> seen.active && seen.kind == Theory && student in row.participants)
            && (r.Ok? ==>
                  && OnlyEvent(s, r.value, i) && |r.value.events| == |s.events|
                  && Seated(row, r.value.events[i], row.participants - {student}))
            && (seen.active && seen.kind != Theory ==> r == Err(BadRequest))
            && (!seen.active || (seen.kind == Theory && student !in row.participants) ==> r == Err(NotFound))
  {
  }

  lemma MissingEvent(s: Schedule, i: nat, seen: Event, p: EventPatch, students: seq<Id>, student: Id)
    requires i >= |s.events| && NoRepeats(students)
    ensures UpdateEvent(s, i, seen, p) == Err(NotFound) && AssignStudents(s, i, seen, students) == Err(NotFound)
    ensures ReplaceStudents(s, i, seen, students) == Err(NotFound)
    ensures RemoveStudent(s, i, seen, student) == Err(NotFound)
  {
  }

  // ---------------------------------------------------------------- courses

  /** Somebody is enrolled, or a lesson that is not deleted or an event belongs to the course. */
  predicate InUse(s: Schedule, course: Id)
    requires course in s.courses
  {
    || s.courses[course].enrolled >= 1
    || (exists l :: l in s.lessons && l.course == course && !l.deleted)
    || (exists e :: e in s.events && e.course == Some(course))
  }

  /** Kind and hours change exactly while the course is not deleted and not in use; a patch that
      changes neither always succeeds. */
  lemma CoursePatchOverTables(s: Schedule, course: Id, kind: Option<CourseKind>, totalHours: Option<nat>,
                              newKind: CourseKind, newHours: nat)
    requires course in s.courses
    requires Chosen(kind, s.courses[course].kind, newKind) && Chosen(totalHours, s.courses[course].totalHours, newHours)
    ensures var r, c := PatchCourse(s, course, kind, totalHours), s.courses[course];
            && (r == Err(NotFound) <==> c.deleted) && (r.Ok? || r == Err(NotFound) || r == Err(CourseInUse))
            && (r.Ok? <==> !c.deleted && (newKind != c.kind || newHours != c.totalHours ==> !InUse(s, course)))
            && (r.Ok? ==>
                  r.value == s.(courses :=
                    s.courses[course := Course(newKind, newHours, c.enrolled, c.active, c.deleted)]))
  {
    assert CourseUsed(s, course) <==> InUse(s, course) by {
      assert forall i | 0 <= i < |s.lessons| :: s.lessons[i] in s.lessons;
      assert forall i | 0 <= i < |s.events| :: s.events[i] in s.events;
    }
  }

  lemma MissingCourse(s: Schedule, course: Id, kind: Option<CourseKind>, totalHours: Option<nat>)
    requires course !in s.courses
    ensures PatchCourse(s, course, kind, totalHours) == Err(NotFound)
  {
  }

  // ---------------------------------------------------------------- other writes

  /** Hours, blocks and settings are replaced as a whole; a course is added under a new id. */
  lemma OtherWrites(s: Schedule, hours: map<(Id, int), Window>, blocks: seq<Block>, settings: Option<Settings>,
                    course: Id, c: Course)
    ensures After(s, OpSettings(hours, blocks, settings))
         == Schedule(s.lessons, s.events, s.courses, hours, blocks, settings)
    ensures Apply(s, OpNewCourse(course, c))
         == if course in s.courses then Err(BadRequest) else Ok(s.(courses := s.courses[course := c]))
  {
  }
}
