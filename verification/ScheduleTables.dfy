/** The checks read off the tables: what each query, limit and sum means in terms of rows and
    columns alone. */
module ScheduleTables {
  import opened Chronology
  import opened TimeWindows
  import opened Schedule
  import opened ScheduleSafety
  import opened ScheduleHours

  // ---------------------------------------------------------------- commitments

  predicate Apart(a: Window, b: Window) {
    a.end <= b.start || b.end <= a.start
  }

  predicate Counts(l: Lesson) {
    l.status == Scheduled || l.status == Completed
  }

  predicate Runs(e: Event) {
    e.active && (e.status == Planned || e.status == Done || e.status == NoShow)
  }

  /** The student has no other lesson and takes part in no other event in the window. */
  predicate StudentFree(s: Schedule, student: Id, span: Window, exceptLesson: Option<nat>, exceptEvent: Option<nat>) {
    && (forall i | 0 <= i < |s.lessons| && exceptLesson != Some(i) && Counts(s.lessons[i])
                   && s.lessons[i].student == student :: Apart(s.lessons[i].span, span))
    && (forall i | 0 <= i < |s.events| && exceptEvent != Some(i) && Runs(s.events[i])
                   && student in s.events[i].participants :: Apart(s.events[i].span, span))
  }

  predicate InstructorFree(s: Schedule, instructor: Id, span: Window, exceptLesson: Option<nat>,
                           exceptEvent: Option<nat>)
  {
    && (forall i | 0 <= i < |s.lessons| && exceptLesson != Some(i) && Counts(s.lessons[i])
                   && s.lessons[i].instructor == instructor :: Apart(s.lessons[i].span, span))
    && (forall i | 0 <= i < |s.events| && exceptEvent != Some(i) && Runs(s.events[i])
                   && s.events[i].instructor == instructor :: Apart(s.events[i].span, span))
  }

  /** Only drives take a vehicle. */
  predicate VehicleFree(s: Schedule, vehicle: Id, span: Window, exceptLesson: Option<nat>, exceptEvent: Option<nat>) {
    && (forall i | 0 <= i < |s.lessons| && exceptLesson != Some(i) && Counts(s.lessons[i])
                   && s.lessons[i].vehicle == Some(vehicle) :: Apart(s.lessons[i].span, span))
    && (forall i | 0 <= i < |s.events| && exceptEvent != Some(i) && Runs(s.events[i])
                   && s.events[i].kind == Drive && s.events[i].vehicle == Some(vehicle) ::
                   Apart(s.events[i].span, span))
  }

  lemma StudentQueries(s: Schedule, student: Id, span: Window, exceptLesson: Option<nat>, exceptEvent: Option<nat>)
    ensures StudentFree(s, student, span, exceptLesson, exceptEvent) <==>
              !StudentHasLesson(s, student, span, exceptLesson) && !StudentHasEvent(s, student, span, exceptEvent)
    ensures StudentFree(s, student, span, None, exceptEvent) <==> !ParticipantTaken(s, exceptEvent, student, span)
  {
  }

  lemma InstructorQueries(s: Schedule, instructor: Id, span: Window, exceptLesson: Option<nat>,
                          exceptEvent: Option<nat>)
    ensures InstructorFree(s, instructor, span, exceptLesson, exceptEvent) <==>
              && !InstructorHasLesson(s, instructor, span, exceptLesson)
              && !InstructorHasEvent(s, instructor, span, exceptEvent)
  {
  }

  lemma VehicleQueries(s: Schedule, vehicle: Id, span: Window, exceptLesson: Option<nat>, exceptEvent: Option<nat>)
    ensures VehicleFree(s, vehicle, span, exceptLesson, exceptEvent) <==>
            !VehicleTaken(s, vehicle, span, exceptLesson, exceptEvent)
  {
  }

  // ---------------------------------------------------------------- double bookings

  predicate LessonsApart(l: Lesson, m: Lesson) {
    Counts(l) && Counts(m)
    && (l.instructor == m.instructor || l.student == m.student || (l.vehicle.Some? && l.vehicle == m.vehicle))
    ==> Apart(l.span, m.span)
  }

  predicate LessonAndEventApart(l: Lesson, e: Event) {
    Counts(l) && Runs(e)
    && (l.instructor == e.instructor || l.student in e.participants
        || (e.kind == Drive && e.vehicle.Some? && l.vehicle == e.vehicle))
    ==> Apart(l.span, e.span)
  }

  predicate EventsApart(d: Event, e: Event) {
    Runs(d) && Runs(e)
    && (d.instructor == e.instructor || (exists p :: p in d.participants && p in e.participants)
        || (d.kind == Drive && e.kind == Drive && d.vehicle.Some? && d.vehicle == e.vehicle))
    ==> Apart(d.span, e.span)
  }

  /** No instructor, student or vehicle is in two rows of the tables at once. */
  predicate NoDoubleBooking(s: Schedule) {
    && (forall i, j | 0 <= i < j < |s.lessons| :: LessonsApart(s.lessons[i], s.lessons[j]))
    && (forall i, j | 0 <= i < |s.lessons| && 0 <= j < |s.events| :: LessonAndEventApart(s.lessons[i], s.events[j]))
    && (forall i, j | 0 <= i < j < |s.events| :: EventsApart(s.events[i], s.events[j]))
  }

  lemma LessonsShare(s: Schedule, i: nat, j: nat)
    requires i < |s.lessons| && j < |s.lessons|
    ensures LessonsApart(s.lessons[i], s.lessons[j]) <==>
            forall r | Holds(s, LessonKey(i), r) && Holds(s, LessonKey(j), r) ::
              !Overlaps(s.lessons[i].span, s.lessons[j].span)
  {
    var l, m := s.lessons[i], s.lessons[j];
    if Counts(l) && Counts(m) {
      assert l.instructor == m.instructor ==>
               Holds(s, LessonKey(i), Instructor(l.instructor)) && Holds(s, LessonKey(j), Instructor(l.instructor));
      assert l.student == m.student ==>
               Holds(s, LessonKey(i), Student(l.student)) && Holds(s, LessonKey(j), Student(l.student));
      assert l.vehicle.Some? && l.vehicle == m.vehicle ==>
               Holds(s, LessonKey(i), Vehicle(l.vehicle.value)) && Holds(s, LessonKey(j), Vehicle(l.vehicle.value));
    }
  }

  lemma LessonAndEventShare(s: Schedule, i: nat, j: nat)
    requires i < |s.lessons| && j < |s.events|
    ensures LessonAndEventApart(s.lessons[i], s.events[j]) <==>
            forall r | Holds(s, LessonKey(i), r) && Holds(s, EventKey(j), r) ::
              !Overlaps(s.lessons[i].span, s.events[j].span)
  {
    var l, e := s.lessons[i], s.events[j];
    if Counts(l) && Runs(e) {
      assert l.instructor == e.instructor ==>
               Holds(s, LessonKey(i), Instructor(l.instructor)) && Holds(s, EventKey(j), Instructor(l.instructor));
      assert l.student in e.participants ==>
               Holds(s, LessonKey(i), Student(l.student)) && Holds(s, EventKey(j), Student(l.student));
      assert e.kind == Drive && e.vehicle.Some? && l.vehicle == e.vehicle ==>
               Holds(s, LessonKey(i), Vehicle(e.vehicle.value)) && Holds(s, EventKey(j), Vehicle(e.vehicle.value));
    }
  }

  lemma EventsShare(s: Schedule, i: nat, j: nat)
    requires i < |s.events| && j < |s.events|
    ensures EventsApart(s.events[i], s.events[j]) <==>
            forall r | Holds(s, EventKey(i), r) && Holds(s, EventKey(j), r) ::
              !Overlaps(s.events[i].span, s.events[j].span)
  {
    var d, e := s.events[i], s.events[j];
    if Runs(d) && Runs(e) {
      assert d.instructor == e.instructor ==>
               Holds(s, EventKey(i), Instructor(d.instructor)) && Holds(s, EventKey(j), Instructor(d.instructor));
      assert forall p | p in d.participants && p in e.participants ::
               Holds(s, EventKey(i), Student(p)) && Holds(s, EventKey(j), Student(p));
      assert d.kind == Drive && e.kind == Drive && d.vehicle.Some? && d.vehicle == e.vehicle ==>
               Holds(s, EventKey(i), Vehicle(d.vehicle.value)) && Holds(s, EventKey(j), Vehicle(d.vehicle.value));
    }
  }

  lemma PairsApart(s: Schedule, j: Key, k: Key, r: Resource)
    requires NoDoubleBooking(s) && j != k && Holds(s, j, r) && Holds(s, k, r)
    ensures !Overlaps(SpanOf(s, j), SpanOf(s, k))
  {
    match (j, k)
    case (LessonKey(a), LessonKey(b)) =>
      LessonsShare(s, a, b);
      LessonsShare(s, b, a);
    case (LessonKey(a), EventKey(b)) => LessonAndEventShare(s, a, b);
    case (EventKey(a), LessonKey(b)) => LessonAndEventShare(s, b, a);
    case (EventKey(a), EventKey(b)) =>
      EventsShare(s, a, b);
      EventsShare(s, b, a);
  }

  /** The invariant of the writes is exactly that. */
  lemma NoOverlapMeans(s: Schedule)
    ensures NoOverlap(s) <==> NoDoubleBooking(s)
  {
    if NoDoubleBooking(s) {
      forall j, k, r | j != k && Holds(s, j, r) && Holds(s, k, r) ensures !Overlaps(SpanOf(s, j), SpanOf(s, k)) {
        PairsApart(s, j, k, r);
      }
    }
    if NoOverlap(s) {
      forall i, j | 0 <= i < j < |s.lessons| ensures LessonsApart(s.lessons[i], s.lessons[j]) {
        LessonsShare(s, i, j);
      }
      forall i, j | 0 <= i < |s.lessons| && 0 <= j < |s.events|
        ensures LessonAndEventApart(s.lessons[i], s.events[j])
      {
        LessonAndEventShare(s, i, j);
      }
      forall i, j | 0 <= i < j < |s.events| ensures EventsApart(s.events[i], s.events[j]) {
        EventsShare(s, i, j);
      }
    }
  }

  // ---------------------------------------------------------------- durations and packages

  /** Without settings a practice lesson takes one to two hours and a theory event 45 to 90
      minutes; the settings of the school replace both limits. */
  predicate LengthAllowed(settings: Option<Settings>, theory: bool, span: Window) {
    var length := span.end - span.start;
    && length > 0
    && match settings
       case None => if theory then 2_700_000 <= length <= 5_400_000 else 3_600_000 <= length <= 7_200_000
       case Some(c) =>
         if theory then c.theoryMin * 60_000 <= length <= c.theoryMax * 60_000
         else c.practiceMin * 60_000 <= length <= c.practiceMax * 60_000
  }

  lemma LengthMeans(settings: Option<Settings>, theory: bool, span: Window)
    ensures DurationAllowed(settings, theory, span) <==> LengthAllowed(settings, theory, span)
  {
  }

  /** The nearest minute, halves up. */
  lemma RoundingMeans(span: Window)
    ensures var m := RoundMinutes(span);
            60_000 * m - 30_000 <= span.end - span.start < 60_000 * m + 30_000
  {
  }

  /** A lesson uses up the package of its course: an undeleted practice lesson of the student in
      the course, held or to be held. */
  predicate UsesPackage(l: Lesson, course: Id, student: Id) {
    l.practice && !l.deleted && l.course == course && l.student == student && Counts(l)
  }

  lemma PackageMeans(lessons: seq<Lesson>, course: Id, student: Id, l: Lesson, except: Option<nat>)
    ensures BookedMinutes([], course, student, except) == 0
    ensures BookedMinutes(lessons + [l], course, student, except)
         == BookedMinutes(lessons, course, student, except)
            + if UsesPackage(l, course, student) && except != Some(|lessons|) then RoundMinutes(l.span) else 0
  {
    assert (lessons + [l])[..|lessons|] == lessons;
  }

  /** In a practical or extra course the lesson is not empty and, with what is booked already, not
      longer than the hours of the course. */
  predicate PackageSuffices(s: Schedule, course: Id, student: Id, span: Window, except: Option<nat>)
    requires course in s.courses
  {
    var c := s.courses[course];
    c.kind == Practical || c.kind == Extra ==>
      && RoundMinutes(span) > 0
      && BookedMinutes(s.lessons, course, student, except) + RoundMinutes(span) <= 60 * c.totalHours
  }

  lemma PackageCheckMeans(s: Schedule, course: Id, student: Id, span: Window, except: Option<nat>)
    requires course in s.courses
    ensures var e := PackageError(s, course, student, span, except);
            && (e.None? <==> PackageSuffices(s, course, student, span, except))
            && (e == Some(BadRequest) <==> s.courses[course].kind != TheoryGroup && RoundMinutes(span) <= 0)
            && (e.None? || e == Some(BadRequest) || e == Some(CourseLimitExceeded))
  {
  }

  /** The last lesson of a package: exactly the minutes that are left, at least the shortest final
      lesson (30 minutes without settings), shorter than an ordinary lesson, and not forbidden. */
  predicate FinalAllowed(s: Schedule, course: Id, student: Id, span: Window)
    requires course in s.courses
  {
    var left := 60 * s.courses[course].totalHours - BookedMinutes(s.lessons, course, student, None);
    && left >= 0 && span.end - span.start == left * 60_000
    && match s.settings
       case None => 30 <= left < 60
       case Some(c) => c.allowShortFinal && c.minFinal <= left < c.practiceMin && left <= c.practiceMax
  }

  lemma FinalCheckMeans(s: Schedule, course: Id, student: Id, span: Window)
    requires course in s.courses && span.start < span.end
    ensures FinalLessonError(s, course, student, span).None? <==> FinalAllowed(s, course, student, span)
    ensures FinalLessonError(s, course, student, span) in {None, Some(BadRequest), Some(CourseLimitExceeded)}
    ensures FinalLessonError(s, course, student, span) == Some(CourseLimitExceeded) <==>
            var left := 60 * s.courses[course].totalHours - BookedMinutes(s.lessons, course, student, None);
            span.end - span.start != left * 60_000
  {
  }

  // ---------------------------------------------------------------- instructor hours

  predicate WholeMinute(w: Window) {
    w.start % 60_000 == 0 && w.end % 60_000 == 0 && w.start < w.end
  }

  /** The rows of the instructor are on whole minutes. */
  predicate OnMinutes(s: Schedule, instructor: Id) {
    && (forall l | l in s.lessons && l.instructor == instructor :: WholeMinute(l.span))
    && (forall e | e in s.events && e.instructor == instructor :: WholeMinute(e.span))
    && (forall b | b in s.blocks && b.instructor == instructor :: WholeMinute(b.span))
  }

  predicate Unblocked(s: Schedule, instructor: Id, span: Window) {
    forall b | b in s.blocks && b.instructor == instructor :: Apart(b.span, span)
  }

  /** Within one day of 86,400,000 ms and within its working window, given in minutes. */
  predicate InWorkingHours(s: Schedule, instructor: Id, span: Window) {
    var day := span.start / 86_400_000;
    && span.start < span.end && span.end / 86_400_000 == day && (instructor, day) in s.hours
    && day * 86_400_000 + 60_000 * s.hours[(instructor, day)].start <= span.start
    && span.end <= day * 86_400_000 + 60_000 * s.hours[(instructor, day)].end
  }

  lemma {:induction false} BlockRowsElements(blocks: seq<Block>, instructor: Id, w: Window)
    ensures w in BlockRows(blocks, instructor) <==> exists b :: b in blocks && b.instructor == instructor && b.span == w
  {
    if blocks != [] {
      var n := |blocks| - 1;
      BlockRowsElements(blocks[..n], instructor, w);
      assert blocks == blocks[..n] + [blocks[n]];
    }
  }

  lemma BlocksClear(blocks: seq<Block>, instructor: Id, span: Window)
    ensures Clear(BlockRows(blocks, instructor), span) <==>
            forall b | b in blocks && b.instructor == instructor :: Apart(b.span, span)
  {
    forall b | b in blocks && b.instructor == instructor ensures b.span in BlockRows(blocks, instructor) {
      BlockRowsElements(blocks, instructor, b.span);
    }
    forall w | w in BlockRows(blocks, instructor)
      ensures exists b :: b in blocks && b.instructor == instructor && b.span == w
    {
      BlockRowsElements(blocks, instructor, w);
    }
  }

  predicate LessonRowsApart(lessons: seq<Lesson>, instructor: Id, span: Window, except: Option<nat>) {
    forall i | 0 <= i < |lessons| && except != Some(i) && Counts(lessons[i]) && lessons[i].instructor == instructor ::
      Apart(lessons[i].span, span)
  }

  predicate EventRowsApart(events: seq<Event>, instructor: Id, span: Window, except: Option<nat>) {
    forall i | 0 <= i < |events| && except != Some(i) && Runs(events[i]) && events[i].instructor == instructor ::
      Apart(events[i].span, span)
  }

  lemma LessonsClear(lessons: seq<Lesson>, instructor: Id, span: Window, except: Option<nat>)
    ensures Clear(LessonRows(lessons, instructor, except), span) <==> LessonRowsApart(lessons, instructor, span, except)
  {
    forall i | 0 <= i < |lessons| && except != Some(i) && Counts(lessons[i]) && lessons[i].instructor == instructor
      ensures lessons[i].span in LessonRows(lessons, instructor, except)
    {
      LessonRowsElements(lessons, instructor, except, lessons[i].span);
    }
    if LessonRowsApart(lessons, instructor, span, except) {
      forall w | w in LessonRows(lessons, instructor, except) ensures !Overlaps(w, span) {
        LessonRowsElements(lessons, instructor, except, w);
      }
    }
  }

  lemma EventsClear(events: seq<Event>, instructor: Id, span: Window, except: Option<nat>)
    ensures Clear(EventRows(events, instructor, except), span) <==> EventRowsApart(events, instructor, span, except)
  {
    forall i | 0 <= i < |events| && except != Some(i) && Runs(events[i]) && events[i].instructor == instructor
      ensures events[i].span in EventRows(events, instructor, except)
    {
      EventRowsElements(events, instructor, except, events[i].span);
    }
    if EventRowsApart(events, instructor, span, except) {
      forall w | w in EventRows(events, instructor, except) ensures !Overlaps(w, span) {
        EventRowsElements(events, instructor, except, w);
      }
    }
  }

  lemma ClearConcat(a: seq<Window>, b: seq<Window>, c: seq<Window>, span: Window)
    ensures Clear(a + b + c, span) <==> Clear(a, span) && Clear(b, span) && Clear(c, span)
  {
    assert forall w :: w in a + b + c <==> w in a || w in b || w in c;
  }

  lemma InstructorRowsClear(s: Schedule, instructor: Id, span: Window, exceptEvent: Option<nat>,
                            exceptLesson: Option<nat>)
    ensures Clear(InstructorRows(s, instructor, exceptEvent, exceptLesson), span) <==>
            Unblocked(s, instructor, span) && InstructorFree(s, instructor, span, exceptLesson, exceptEvent)
  {
    BlocksClear(s.blocks, instructor, span);
    LessonsClear(s.lessons, instructor, span, exceptLesson);
    EventsClear(s.events, instructor, span, exceptEvent);
    ClearConcat(BlockRows(s.blocks, instructor), LessonRows(s.lessons, instructor, exceptLesson),
                EventRows(s.events, instructor, exceptEvent), span);
    assert InstructorFree(s, instructor, span, exceptLesson, exceptEvent) <==>
           && LessonRowsApart(s.lessons, instructor, span, exceptLesson)
           && EventRowsApart(s.events, instructor, span, exceptEvent);
  }

  lemma InstructorRowsOnMinutes(s: Schedule, instructor: Id, exceptEvent: Option<nat>, exceptLesson: Option<nat>)
    requires OnMinutes(s, instructor)
    ensures WholeMinutes(InstructorRows(s, instructor, exceptEvent, exceptLesson))
  {
    forall w | w in InstructorRows(s, instructor, exceptEvent, exceptLesson) ensures WholeMinute(w) {
      BlockRowsElements(s.blocks, instructor, w);
      LessonRowsElements(s.lessons, instructor, exceptLesson, w);
      EventRowsElements(s.events, instructor, exceptEvent, w);
    }
  }

  /** The hours check over the tables: on whole minutes it passes exactly when the request lies in
      the working hours of its day and meets no block of the instructor, no uncancelled lesson and
      no running event, those excepted left out. */
  lemma HoursOverTables(s: Schedule, instructor: Id, span: Window, exceptEvent: Option<nat>, exceptLesson: Option<nat>)
    requires OnMinutes(s, instructor) && span.start % 60_000 == 0 && span.end % 60_000 == 0
    ensures HoursError(s, instructor, span, exceptEvent, exceptLesson).None? <==>
              && InWorkingHours(s, instructor, span) && Unblocked(s, instructor, span)
              && InstructorFree(s, instructor, span, exceptLesson, exceptEvent)
    ensures HoursError(s, instructor, span, exceptEvent, exceptLesson) == Some(BadRequest) <==>
              span.start >= span.end || span.start / 86_400_000 != span.end / 86_400_000
    ensures HoursError(s, instructor, span, exceptEvent, exceptLesson)
            in {None, Some(BadRequest), Some(OutsideInstructorHours)}
  {
    InstructorRowsOnMinutes(s, instructor, exceptEvent, exceptLesson);
    InstructorRowsClear(s, instructor, span, exceptEvent, exceptLesson);
    HoursCheckIsExact(s, instructor, span, exceptEvent, exceptLesson);
    ClockShows(span.start);
    ClockShows(span.end);
  }
}
