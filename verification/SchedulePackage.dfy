/** The hours package of a course: no run books a student beyond it, and the booking that is
    meant to use it up leaves nothing. */
module SchedulePackage {
  import opened Chronology
  import opened TimeWindows
  import opened Schedule

  function Share(l: Lesson, course: Id, student: Id): int {
    if InPackage(l, course, student) then RoundMinutes(l.span) else 0
  }

  predicate Limited(s: Schedule, course: Id) {
    course in s.courses && s.courses[course].kind != TheoryGroup
  }

  /** Bookings of a practical or extra course never exceed its hours. */
  ghost predicate WithinPackages(s: Schedule) {
    && (forall l | l in s.lessons :: l.span.start <= l.span.end && l.course in s.courses)
    && forall course, student | Limited(s, course) ::
         BookedMinutes(s.lessons, course, student, None) <= s.courses[course].totalHours * 60
  }

  // ---------------------------------------------------------------- sums

  lemma {:induction false} BookedWithout(lessons: seq<Lesson>, course: Id, student: Id, i: nat)
    ensures BookedMinutes(lessons, course, student, None) == BookedMinutes(lessons, course, student, Some(i))
            + if i < |lessons| then Share(lessons[i], course, student) else 0
  {
    if lessons != [] {
      BookedWithout(lessons[..|lessons| - 1], course, student, i);
    }
  }

  lemma {:induction false} BookedIgnoresExcepted(lessons: seq<Lesson>, course: Id, student: Id, i: nat, l: Lesson)
    requires i < |lessons|
    ensures BookedMinutes(lessons[i := l], course, student, Some(i)) == BookedMinutes(lessons, course, student, Some(i))
  {
    var n := |lessons| - 1;
    if i < n {
      BookedIgnoresExcepted(lessons[..n], course, student, i, l);
      assert lessons[i := l][..n] == lessons[..n][i := l];
    } else {
      assert lessons[i := l][..n] == lessons[..n];
    }
  }

  /** What one changed row does to a student's booked minutes. */
  lemma BookedAfterWrite(lessons: seq<Lesson>, course: Id, student: Id, i: nat, l: Lesson)
    requires i < |lessons|
    ensures BookedMinutes(lessons[i := l], course, student, None)
         == BookedMinutes(lessons, course, student, Some(i)) + Share(l, course, student)
    ensures BookedMinutes(lessons, course, student, None)
         == BookedMinutes(lessons, course, student, Some(i)) + Share(lessons[i], course, student)
  {
    BookedWithout(lessons[i := l], course, student, i);
    BookedWithout(lessons, course, student, i);
    BookedIgnoresExcepted(lessons, course, student, i, l);
  }

  lemma BookedAfterAppend(lessons: seq<Lesson>, course: Id, student: Id, l: Lesson)
    ensures BookedMinutes(lessons + [l], course, student, None)
         == BookedMinutes(lessons, course, student, None) + Share(l, course, student)
  {
    assert (lessons + [l])[..|lessons|] == lessons;
  }

  lemma {:induction false} NothingBooked(lessons: seq<Lesson>, course: Id, student: Id)
    requires forall l | l in lessons :: l.course == course ==> l.deleted
    ensures BookedMinutes(lessons, course, student, None) == 0
  {
    if lessons != [] {
      NothingBooked(lessons[..|lessons| - 1], course, student);
    }
  }

  // ---------------------------------------------------------------- writes

  lemma BookKeeps(s: Schedule, course: Id, student: Id, instructor: Id, span: Window, choice: VehicleChoice)
    requires WithinPackages(s) && BookLesson(s, course, student, instructor, span, choice).Ok?
    ensures WithinPackages(BookLesson(s, course, student, instructor, span, choice).value)
  {
    var t := BookLesson(s, course, student, instructor, span, choice).value;
    var l := t.lessons[|s.lessons|];
    assert t.lessons == s.lessons + [l];
    assert l.span.start <= l.span.end;
    forall c, x | Limited(t, c)
      ensures BookedMinutes(t.lessons, c, x, None) <= t.courses[c].totalHours * 60
    {
      BookedAfterAppend(s.lessons, c, x, l);
      assert Limited(s, c);
    }
  }

  lemma WriteLessonKeeps(s: Schedule, i: nat, m: Lesson)
    requires WithinPackages(s) && i < |s.lessons| && m.span.start <= m.span.end
    requires m.course == s.lessons[i].course && m.student == s.lessons[i].student
    requires Limited(s, m.course) ==>
               BookedMinutes(s.lessons, m.course, m.student, Some(i)) + Share(m, m.course, m.student)
               <= s.courses[m.course].totalHours * 60
    ensures WithinPackages(s.(lessons := s.lessons[i := m]))
  {
    var t := s.(lessons := s.lessons[i := m]);
    assert s.lessons[i] in s.lessons;
    forall c, x | Limited(t, c)
      ensures BookedMinutes(t.lessons, c, x, None) <= t.courses[c].totalHours * 60
    {
      assert Limited(s, c);
      BookedAfterWrite(s.lessons, c, x, i, m);
    }
    forall l | l in s.lessons[i := m] ensures l.span.start <= l.span.end && l.course in s.courses {
      assert l == m || l in s.lessons;
    }
  }

  lemma UpdateKeeps(s: Schedule, i: nat, p: LessonPatch, now: int)
    requires WithinPackages(s) && UpdateLesson(s, i, p, now).Ok?
    ensures WithinPackages(UpdateLesson(s, i, p, now).value)
  {
    var l, m := s.lessons[i], Patched(s.lessons[i], p);
    if m != l {
      BookedAfterWrite(s.lessons, m.course, m.student, i, m);
      WriteLessonKeeps(s, i, m);
    }
  }

  lemma CancelKeeps(s: Schedule, i: nat, canceller: Option<Id>, now: int)
    requires WithinPackages(s) && CancelLesson(s, i, canceller, now).Ok?
    ensures WithinPackages(CancelLesson(s, i, canceller, now).value)
  {
    var m := s.lessons[i].(status := Cancelled);
    assert s.lessons[i] in s.lessons;
    BookedAfterWrite(s.lessons, m.course, m.student, i, m);
    WriteLessonKeeps(s, i, m);
  }

  lemma PatchCourseKeeps(s: Schedule, course: Id, kind: Option<CourseKind>, totalHours: Option<nat>)
    requires WithinPackages(s) && PatchCourse(s, course, kind, totalHours).Ok?
    ensures WithinPackages(PatchCourse(s, course, kind, totalHours).value)
  {
    var t := PatchCourse(s, course, kind, totalHours).value;
    forall c, x | Limited(t, c)
      ensures BookedMinutes(t.lessons, c, x, None) <= t.courses[c].totalHours * 60
    {
      if t.courses[c] == s.courses[c] {
        assert Limited(s, c);
      } else {
        NothingBooked(s.lessons, c, x);
      }
    }
  }

  lemma WriteKeepsPackages(s: Schedule, op: Op)
    requires WithinPackages(s)
    ensures WithinPackages(After(s, op))
  {
    if Apply(s, op).Ok? {
      match op
      case OpBook(course, student, instructor, span, choice) => BookKeeps(s, course, student, instructor, span, choice);
      case OpUpdateLesson(i, p, now) => UpdateKeeps(s, i, p, now);
      case OpCancel(i, canceller, now) => CancelKeeps(s, i, canceller, now);
      case OpPatchCourse(course, kind, totalHours) => PatchCourseKeeps(s, course, kind, totalHours);
      case OpNewCourse(course, c) => NewCourseKeeps(s, course, c);
      case _ =>
        var t := After(s, op);
        assert t.lessons == s.lessons && t.courses == s.courses;
        assert forall c :: Limited(t, c) <==> Limited(s, c);
    }
  }

  lemma NewCourseKeeps(s: Schedule, course: Id, c: Course)
    requires WithinPackages(s) && course !in s.courses
    ensures WithinPackages(s.(courses := s.courses[course := c]))
  {
    var t := s.(courses := s.courses[course := c]);
    forall d, x | Limited(t, d)
      ensures BookedMinutes(t.lessons, d, x, None) <= t.courses[d].totalHours * 60
    {
      if d == course {
        NothingBooked(s.lessons, d, x);
      } else {
        assert Limited(s, d);
      }
    }
  }

  /** Over every run of booking, editing, cancelling and course patching, nobody's practice
      lessons exceed the hours of a practical or extra course. */
  lemma {:induction false} RunsStayWithinPackages(ops: seq<Op>)
    ensures WithinPackages(Run(ops))
  {
    if ops != [] {
      RunsStayWithinPackages(ops[..|ops| - 1]);
      WriteKeepsPackages(Run(ops[..|ops| - 1]), ops[|ops| - 1]);
    }
  }

  /** A booking in REMAINING_PACKAGE mode leaves exactly zero minutes. */
  lemma FinalBookingUsesUpThePackage(s: Schedule, course: Id, student: Id, instructor: Id, span: Window,
                                     candidates: seq<Id>, preferred: Option<Id>, usable: set<Id>)
    requires BookLesson(s, course, student, instructor, span, AnyOf(candidates, preferred, usable, true)).Ok?
    ensures var t := BookLesson(s, course, student, instructor, span, AnyOf(candidates, preferred, usable, true)).value;
            && RemainingMinutes(s, course, student, s.courses[course].totalHours, None) == RoundMinutes(span) > 0
            && RemainingMinutes(t, course, student, t.courses[course].totalHours, None) == 0
            && BookedMinutes(t.lessons, course, student, None) == t.courses[course].totalHours * 60
  {
    var t := BookLesson(s, course, student, instructor, span, AnyOf(candidates, preferred, usable, true)).value;
    BookedAfterAppend(s.lessons, course, student, t.lessons[|s.lessons|]);
  }
}
