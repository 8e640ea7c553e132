/** The times offered for moving a lesson: the instructor's free windows, less the student's
    commitments, less the past, less the vehicle's commitments, on a grid of options.  Judged
    on the same tables, every offer passes the checks that saving the move runs. */
module LessonEditOptions {
  import opened Chronology
  import opened TimeWindows
  import opened Schedule
  import opened ScheduleHours
  import opened AvailabilityOptions

  // ---------------------------------------------------------------- rows

  /** A row of the schedule together with the vehicle it takes. */
  datatype Use = Use(vehicle: Option<Id>, span: Window)

  function StudentLessons(lessons: seq<Lesson>, student: Id, except: nat): seq<Window> {
    if lessons == [] then []
    else
      var n := |lessons| - 1;
      StudentLessons(lessons[..n], student, except)
      + if lessons[n].student == student && ActiveLesson(lessons[n]) && n != except then [lessons[n].span] else []
  }

  function StudentEvents(events: seq<Event>, student: Id): seq<Window> {
    if events == [] then []
    else
      var n := |events| - 1;
      StudentEvents(events[..n], student)
      + if student in events[n].participants && ActiveEvent(events[n]) then [events[n].span] else []
  }

  function StudentRows(s: Schedule, student: Id, exceptLesson: nat): seq<Window> {
    StudentLessons(s.lessons, student, exceptLesson) + StudentEvents(s.events, student)
  }

  function LessonUses(lessons: seq<Lesson>, except: nat): seq<Use> {
    if lessons == [] then []
    else
      var n := |lessons| - 1;
      LessonUses(lessons[..n], except)
      + if ActiveLesson(lessons[n]) && n != except then [Use(lessons[n].vehicle, lessons[n].span)] else []
  }

  function EventUses(events: seq<Event>): seq<Use> {
    if events == [] then []
    else
      var n := |events| - 1;
      EventUses(events[..n])
      + if events[n].kind == Drive && ActiveEvent(events[n]) then [Use(events[n].vehicle, events[n].span)] else []
  }

  function Uses(s: Schedule, exceptLesson: nat): seq<Use> {
    LessonUses(s.lessons, exceptLesson) + EventUses(s.events)
  }

  function UsedBy(uses: seq<Use>, vehicle: Id): seq<Window> {
    if uses == [] then []
    else
      var n := |uses| - 1;
      UsedBy(uses[..n], vehicle) + if uses[n].vehicle == Some(vehicle) then [uses[n].span] else []
  }

  function VehicleRows(s: Schedule, vehicle: Id, exceptLesson: nat): seq<Window> {
    UsedBy(Uses(s, exceptLesson), vehicle)
  }

  lemma {:induction false} StudentLessonsElements(lessons: seq<Lesson>, student: Id, except: nat, i: nat)
    requires i < |lessons| && lessons[i].student == student && ActiveLesson(lessons[i]) && i != except
    ensures lessons[i].span in StudentLessons(lessons, student, except)
  {
    if i < |lessons| - 1 {
      StudentLessonsElements(lessons[..|lessons| - 1], student, except, i);
    }
  }

  lemma {:induction false} StudentEventsElements(events: seq<Event>, student: Id, i: nat)
    requires i < |events| && student in events[i].participants && ActiveEvent(events[i])
    ensures events[i].span in StudentEvents(events, student)
  {
    if i < |events| - 1 {
      StudentEventsElements(events[..|events| - 1], student, i);
    }
  }

  lemma {:induction false} LessonUsesElements(lessons: seq<Lesson>, except: nat, i: nat)
    requires i < |lessons| && ActiveLesson(lessons[i]) && i != except
    ensures Use(lessons[i].vehicle, lessons[i].span) in LessonUses(lessons, except)
  {
    if i < |lessons| - 1 {
      LessonUsesElements(lessons[..|lessons| - 1], except, i);
    }
  }

  lemma {:induction false} EventUsesElements(events: seq<Event>, i: nat)
    requires i < |events| && events[i].kind == Drive && ActiveEvent(events[i])
    ensures Use(events[i].vehicle, events[i].span) in EventUses(events)
  {
    if i < |events| - 1 {
      EventUsesElements(events[..|events| - 1], i);
    }
  }

  lemma {:induction false} UsedByElements(uses: seq<Use>, vehicle: Id, span: Window)
    ensures span in UsedBy(uses, vehicle) <==> Use(Some(vehicle), span) in uses
  {
    if uses != [] {
      var n := |uses| - 1;
      UsedByElements(uses[..n], vehicle, span);
      assert uses == uses[..n] + [uses[n]];
    }
  }

  lemma ClearStudent(s: Schedule, student: Id, span: Window, exceptLesson: nat)
    requires Clear(StudentRows(s, student, exceptLesson), span)
    ensures !StudentHasLesson(s, student, span, Some(exceptLesson)) && !StudentHasEvent(s, student, span, None)
  {
    forall i | 0 <= i < |s.lessons| && s.lessons[i].student == student
      ensures !LessonTakes(s, i, span, Some(exceptLesson))
    {
      if ActiveLesson(s.lessons[i]) && i != exceptLesson {
        StudentLessonsElements(s.lessons, student, exceptLesson, i);
      }
    }
    forall i | 0 <= i < |s.events| && student in s.events[i].participants
      ensures !EventTakes(s, i, span, None)
    {
      if ActiveEvent(s.events[i]) {
        StudentEventsElements(s.events, student, i);
      }
    }
  }

  lemma ClearVehicle(s: Schedule, vehicle: Id, span: Window, exceptLesson: nat)
    requires Clear(VehicleRows(s, vehicle, exceptLesson), span)
    ensures !VehicleTaken(s, vehicle, span, Some(exceptLesson), None)
  {
    forall i | 0 <= i < |s.lessons| && s.lessons[i].vehicle == Some(vehicle)
      ensures !LessonTakes(s, i, span, Some(exceptLesson))
    {
      if ActiveLesson(s.lessons[i]) && i != exceptLesson {
        LessonUsesElements(s.lessons, exceptLesson, i);
        UsedByElements(Uses(s, exceptLesson), vehicle, s.lessons[i].span);
      }
    }
    forall i | 0 <= i < |s.events| && s.events[i].kind == Drive && s.events[i].vehicle == Some(vehicle)
      ensures !EventTakes(s, i, span, None)
    {
      if ActiveEvent(s.events[i]) {
        EventUsesElements(s.events, i);
        UsedByElements(Uses(s, exceptLesson), vehicle, s.events[i].span);
      }
    }
  }

  // ---------------------------------------------------------------- windows

  /** Today, a window starts no earlier than the current minute; spent windows go. */
  function FromNow(windows: seq<Window>, now: int): seq<Window> {
    if windows == [] then []
    else
      var w := Window(Max(windows[0].start, now), windows[0].end);
      (if w.start < w.end then [w] else []) + FromNow(windows[1..], now)
  }

  /** The free windows of a day for lesson `i` with another instructor and vehicle; `now` is
      the current minute when the day is today. */
  function EditWindows(s: Schedule, i: nat, instructor: Id, vehicle: Id, day: int, now: Option<int>): seq<Window>
    requires i < |s.lessons|
  {
    match DayWindows(s, instructor, day, None, Some(i))
    case None => []
    case Some(free) =>
      var afterStudent := SubtractFromAll(free, OnDay(StudentRows(s, s.lessons[i].student, i), DayRange(day)));
      var upcoming := if now.Some? then FromNow(afterStudent, now.value) else afterStudent;
      SubtractFromAll(upcoming, OnDay(VehicleRows(s, vehicle, i), DayRange(day)))
  }

  lemma {:induction false} SubtractFromAllFits(windows: seq<Window>, used: seq<Window>, r: Window)
    requires Forward(used) && r.start < r.end
    ensures Fits(SubtractFromAll(windows, used), r) <==>
            Fits(windows, r) && forall b | b in used :: !Overlaps(b, r)
  {
    if windows != [] {
      var first, rest := Subtract(windows[0], used), SubtractFromAll(windows[1..], used);
      SubtractFits(windows[0], used, r);
      SubtractFromAllFits(windows[1..], used, r);
      assert Fits(first + rest, r) <==> Fits(first, r) || Fits(rest, r) by {
        assert forall w :: w in first + rest <==> w in first || w in rest;
      }
      assert Fits(windows, r) <==> Inside(r, windows[0]) || Fits(windows[1..], r) by {
        assert forall w :: w in windows <==> w == windows[0] || w in windows[1..];
      }
    }
  }

  lemma {:induction false} FromNowFits(windows: seq<Window>, now: int, r: Window)
    requires r.start < r.end
    ensures Fits(FromNow(windows, now), r) <==> Fits(windows, r) && now <= r.start
  {
    if windows != [] {
      var w := Window(Max(windows[0].start, now), windows[0].end);
      var first, rest := if w.start < w.end then [w] else [], FromNow(windows[1..], now);
      FromNowFits(windows[1..], now, r);
      assert Fits(first + rest, r) <==> Fits(first, r) || Fits(rest, r) by {
        assert forall x :: x in first + rest <==> x in first || x in rest;
      }
      assert Fits(first, r) <==> Inside(r, w) by {
        assert w.start < w.end ==> w in first;
      }
      assert Fits(windows, r) <==> Inside(r, windows[0]) || Fits(windows[1..], r) by {
        assert forall x :: x in windows <==> x == windows[0] || x in windows[1..];
      }
    }
  }

  /** Whole-minute rows, each ending after it starts. */
  predicate MinuteRows(s: Schedule) {
    && (forall l | l in s.lessons :: Aligned(l.span.start) && Aligned(l.span.end) && l.span.start < l.span.end)
    && (forall e | e in s.events :: Aligned(e.span.start) && Aligned(e.span.end) && e.span.start < e.span.end)
    && (forall b | b in s.blocks :: Aligned(b.span.start) && Aligned(b.span.end) && b.span.start < b.span.end)
  }

  lemma {:induction false} StudentRowsWhole(lessons: seq<Lesson>, events: seq<Event>, student: Id, except: nat)
    requires forall l | l in lessons :: Aligned(l.span.start) && Aligned(l.span.end) && l.span.start < l.span.end
    requires forall e | e in events :: Aligned(e.span.start) && Aligned(e.span.end) && e.span.start < e.span.end
    ensures WholeMinutes(StudentLessons(lessons, student, except)) && WholeMinutes(StudentEvents(events, student))
    decreases |lessons| + |events|
  {
    if lessons != [] {
      StudentRowsWhole(lessons[..|lessons| - 1], events, student, except);
    }
    if events != [] {
      StudentRowsWhole(lessons, events[..|events| - 1], student, except);
    }
  }

  lemma {:induction false} InstructorRowsWhole(s: Schedule, instructor: Id, except: Option<nat>)
    requires MinuteRows(s)
    ensures WholeMinutes(InstructorRows(s, instructor, None, except))
  {
    forall w | w in LessonRows(s.lessons, instructor, except) ensures WholeMinutes([w]) {
      LessonRowsElements(s.lessons, instructor, except, w);
    }
    forall w | w in EventRows(s.events, instructor, None) ensures WholeMinutes([w]) {
      EventRowsElements(s.events, instructor, None, w);
    }
    BlockRowsWhole(s.blocks, instructor);
    forall w | w in InstructorRows(s, instructor, None, except)
      ensures Aligned(w.start) && Aligned(w.end) && w.start < w.end
    {
      if w !in BlockRows(s.blocks, instructor) {
        assert WholeMinutes([w]) && w in [w];
      }
    }
  }

  lemma {:induction false} BlockRowsWhole(blocks: seq<Block>, instructor: Id)
    requires forall b | b in blocks :: Aligned(b.span.start) && Aligned(b.span.end) && b.span.start < b.span.end
    ensures WholeMinutes(BlockRows(blocks, instructor))
  {
    if blocks != [] {
      BlockRowsWhole(blocks[..|blocks| - 1], instructor);
    }
  }

  lemma {:induction false} UsesWhole(lessons: seq<Lesson>, events: seq<Event>, except: nat)
    requires forall l | l in lessons :: Aligned(l.span.start) && Aligned(l.span.end) && l.span.start < l.span.end
    requires forall e | e in events :: Aligned(e.span.start) && Aligned(e.span.end) && e.span.start < e.span.end
    ensures forall u | u in LessonUses(lessons, except) + EventUses(events) ::
              Aligned(u.span.start) && Aligned(u.span.end) && u.span.start < u.span.end
    decreases |lessons| + |events|
  {
    if lessons != [] {
      UsesWhole(lessons[..|lessons| - 1], events, except);
    }
    if events != [] {
      UsesWhole(lessons, events[..|events| - 1], except);
    }
  }

  lemma VehicleRowsWhole(s: Schedule, vehicle: Id, except: nat)
    requires MinuteRows(s)
    ensures WholeMinutes(VehicleRows(s, vehicle, except))
  {
    UsesWhole(s.lessons, s.events, except);
    forall w | w in VehicleRows(s, vehicle, except) ensures Aligned(w.start) && Aligned(w.end) && w.start < w.end {
      UsedByElements(Uses(s, except), vehicle, w);
      assert Use(Some(vehicle), w) in Uses(s, except);
    }
  }

  /** A request of the day fits an offered window exactly when it lies in the working hours,
      is not in the past, and instructor, student and vehicle are all free. */
  lemma EditWindowsAreExact(s: Schedule, i: nat, instructor: Id, vehicle: Id, day: int, now: Option<int>, r: Window)
    requires i < |s.lessons| && MinuteRows(s) && WithinDay(r)
    ensures Fits(EditWindows(s, i, instructor, vehicle, day, now), r) <==>
              && (instructor, day) in s.hours && Inside(r, s.hours[(instructor, day)])
              && (now.Some? ==> now.value <= r.start)
              && Clear(InstructorRows(s, instructor, None, Some(i)), At(day, r))
              && Clear(StudentRows(s, s.lessons[i].student, i), At(day, r))
              && Clear(VehicleRows(s, vehicle, i), At(day, r))
  {
    if (instructor, day) in s.hours {
      var student, taken := StudentRows(s, s.lessons[i].student, i), VehicleRows(s, vehicle, i);
      InstructorRowsWhole(s, instructor, Some(i));
      StudentRowsWhole(s.lessons, s.events, s.lessons[i].student, i);
      VehicleRowsWhole(s, vehicle, i);
      var free := DayWindows(s, instructor, day, None, Some(i)).value;
      DayWindowsFit(s, instructor, day, None, Some(i), r);
      StageFits(free, student, day, r);
      var afterStudent := SubtractFromAll(free, OnDay(student, DayRange(day)));
      if now.Some? {
        FromNowFits(afterStudent, now.value, r);
      }
      StageFits(if now.Some? then FromNow(afterStudent, now.value) else afterStudent, taken, day, r);
    }
  }

  lemma StageFits(windows: seq<Window>, rows: seq<Window>, day: int, r: Window)
    requires WholeMinutes(rows) && WithinDay(r)
    ensures Fits(SubtractFromAll(windows, OnDay(rows, DayRange(day))), r) <==>
            Fits(windows, r) && Clear(rows, At(day, r))
  {
    OnDayForward(rows, day);
    SubtractFromAllFits(windows, OnDay(rows, DayRange(day)), r);
    OnDayClear(rows, day, r);
  }

  // ---------------------------------------------------------------- the offer

  /** The minutes left in the course as the options see them: every other lesson of the
      student that is not cancelled counts, whatever its kind. */
  function OtherMinutes(lessons: seq<Lesson>, course: Id, student: Id, except: nat): int {
    if lessons == [] then 0
    else
      var n := |lessons| - 1;
      OtherMinutes(lessons[..n], course, student, except)
      + if lessons[n].course == course && lessons[n].student == student && ActiveLesson(lessons[n]) && n != except
        then RoundMinutes(lessons[n].span) else 0
  }

  function CourseMinutesLeft(s: Schedule, i: nat): Option<int>
    requires i < |s.lessons| && s.lessons[i].course in s.courses
  {
    var l := s.lessons[i];
    var c := s.courses[l.course];
    if c.kind == TheoryGroup then None
    else Some(Max(0, c.totalHours * 60 - OtherMinutes(s.lessons, l.course, l.student, i)))
  }

  function OfferGrid(s: Schedule, i: nat, startStep: int): Grid
    requires i < |s.lessons| && s.lessons[i].course in s.courses
  {
    var limits := DurationLimits(s.settings, false);
    match CourseMinutesLeft(s, i)
    case None => Grid(limits.start, limits.end, startStep, 15)
    case Some(left) => Grid(limits.start, Min(limits.end, left), startStep, 15)
  }

  predicate Offered(s: Schedule, i: nat, instructor: Id, vehicle: Id, day: int, now: Option<int>, startStep: int,
                    r: Window)
    requires i < |s.lessons| && s.lessons[i].course in s.courses && startStep > 0
  {
    var g := OfferGrid(s, i, startStep);
    g.min <= g.max && Offers(EditWindows(s, i, instructor, vehicle, day, now), g, r.start, r.end)
  }

  lemma {:induction false} OptionsCountMore(lessons: seq<Lesson>, course: Id, student: Id, except: nat)
    requires forall l | l in lessons :: l.span.start < l.span.end
    ensures OtherMinutes(lessons, course, student, except) >= BookedMinutes(lessons, course, student, Some(except))
  {
    if lessons != [] {
      OptionsCountMore(lessons[..|lessons| - 1], course, student, except);
    }
  }

  /** The working windows are clock times of one day. */
  predicate ClockHours(s: Schedule) {
    forall k | k in s.hours :: 0 <= s.hours[k].start && s.hours[k].end < DAY_MINUTES
  }

  function MovedTo(l: Lesson, span: Window, instructor: Id, vehicle: Id): Lesson {
    l.(span := span, instructor := instructor, vehicle := Some(vehicle))
  }

  lemma OfferedFits(s: Schedule, i: nat, instructor: Id, vehicle: Id, day: int, now: Option<int>, startStep: int,
                    r: Window)
    requires i < |s.lessons| && s.lessons[i].course in s.courses && startStep > 0
    requires DurationLimits(s.settings, false).start > 0 && MinuteRows(s) && ClockHours(s)
    ensures Offered(s, i, instructor, vehicle, day, now, startStep, r) ==>
              && (instructor, day) in s.hours && WithinDay(r)
              && Fits(EditWindows(s, i, instructor, vehicle, day, now), r)
  {
    if Offered(s, i, instructor, vehicle, day, now, startStep, r) {
      assert (instructor, day) in s.hours;
      var w :| w in EditWindows(s, i, instructor, vehicle, day, now) && w.start <= r.start && r.end <= w.end;
      EditWindowsInside(s, i, instructor, vehicle, day, now, w);
    }
  }

  lemma EditWindowsInside(s: Schedule, i: nat, instructor: Id, vehicle: Id, day: int, now: Option<int>, w: Window)
    requires i < |s.lessons| && MinuteRows(s) && (instructor, day) in s.hours
    ensures w in EditWindows(s, i, instructor, vehicle, day, now) ==> Inside(w, s.hours[(instructor, day)])
  {
    var base := s.hours[(instructor, day)];
    var student, taken := StudentRows(s, s.lessons[i].student, i), VehicleRows(s, vehicle, i);
    InstructorRowsWhole(s, instructor, Some(i));
    StudentRowsWhole(s.lessons, s.events, s.lessons[i].student, i);
    VehicleRowsWhole(s, vehicle, i);
    OnDayForward(InstructorRows(s, instructor, None, Some(i)), day);
    OnDayForward(student, day);
    OnDayForward(taken, day);
    var free := DayWindows(s, instructor, day, None, Some(i)).value;
    var blocks := SortByStart(OnDay(InstructorRows(s, instructor, None, Some(i)), DayRange(day)));
    SweepOrdered(base, blocks, base.start);
    assert AllInside(free, base);
    SubtractFromAllInside(free, OnDay(student, DayRange(day)), base);
    var afterStudent := SubtractFromAll(free, OnDay(student, DayRange(day)));
    if now.Some? {
      FromNowInside(afterStudent, now.value, base);
    }
    var upcoming := if now.Some? then FromNow(afterStudent, now.value) else afterStudent;
    SubtractFromAllInside(upcoming, OnDay(taken, DayRange(day)), base);
  }

  predicate AllInside(windows: seq<Window>, base: Window) {
    forall w | w in windows :: Inside(w, base)
  }

  lemma {:induction false} SubtractFromAllInside(windows: seq<Window>, used: seq<Window>, base: Window)
    requires Forward(used) && AllInside(windows, base)
    ensures AllInside(SubtractFromAll(windows, used), base)
  {
    if windows != [] {
      SweepOrdered(windows[0], SortByStart(used), windows[0].start);
      assert Inside(windows[0], base) && AllInside(windows[1..], base);
      SubtractFromAllInside(windows[1..], used, base);
      assert AllInside(Subtract(windows[0], used), base);
      InsideConcat(Subtract(windows[0], used), SubtractFromAll(windows[1..], used), base);
    }
  }

  lemma {:induction false} FromNowInside(windows: seq<Window>, now: int, base: Window)
    requires AllInside(windows, base)
    ensures AllInside(FromNow(windows, now), base)
  {
    if windows != [] {
      assert Inside(windows[0], base) && AllInside(windows[1..], base);
      FromNowInside(windows[1..], now, base);
      var w := Window(Max(windows[0].start, now), windows[0].end);
      InsideConcat(if w.start < w.end then [w] else [], FromNow(windows[1..], now), base);
    }
  }

  lemma InsideConcat(a: seq<Window>, b: seq<Window>, base: Window)
    requires AllInside(a, base) && AllInside(b, base)
    ensures AllInside(a + b, base)
  {
    forall w | w in a + b ensures Inside(w, base) {
      assert w in a || w in b;
    }
  }

  /** Every start and end offered for a lesson passes the duration, package, student,
      instructor, hours and vehicle checks of the write, so an edit that asks for it succeeds
      whenever the lesson is still editable. */
  lemma OffersPassTheWriteChecks(s: Schedule, i: nat, instructor: Id, vehicle: Id, day: int, now: Option<int>,
                                 startStep: int, r: Window)
    requires i < |s.lessons| && s.lessons[i].course in s.courses && startStep > 0
    requires DurationLimits(s.settings, false).start > 0 && MinuteRows(s) && ClockHours(s)
    ensures Offered(s, i, instructor, vehicle, day, now, startStep, r) ==>
              MoveError(s, i, MovedTo(s.lessons[i], At(day, r), instructor, vehicle)).None?
    ensures Offered(s, i, instructor, vehicle, day, now, startStep, r) ==>
              forall p: LessonPatch, t: int ::
                && Patched(s.lessons[i], p) == MovedTo(s.lessons[i], At(day, r), instructor, vehicle)
                && EditableError(s.lessons[i], p, t).None? && !s.lessons[i].deleted
                ==> UpdateLesson(s, i, p, t).Ok?
  {
    if Offered(s, i, instructor, vehicle, day, now, startStep, r) {
      OfferedMovePasses(s, i, instructor, vehicle, day, now, startStep, r);
    }
  }

  lemma OfferedMovePasses(s: Schedule, i: nat, instructor: Id, vehicle: Id, day: int, now: Option<int>,
                          startStep: int, r: Window)
    requires i < |s.lessons| && s.lessons[i].course in s.courses && startStep > 0
    requires DurationLimits(s.settings, false).start > 0 && MinuteRows(s) && ClockHours(s)
    ensures Offered(s, i, instructor, vehicle, day, now, startStep, r) ==>
              MoveError(s, i, MovedTo(s.lessons[i], At(day, r), instructor, vehicle)).None?
  {
    if Offered(s, i, instructor, vehicle, day, now, startStep, r) {
      var l, span := s.lessons[i], At(day, r);
      OfferedFits(s, i, instructor, vehicle, day, now, startStep, r);
      EditWindowsAreExact(s, i, instructor, vehicle, day, now, r);
      OffersKeepLimits(EditWindows(s, i, instructor, vehicle, day, now), OfferGrid(s, i, startStep), r);
      GridDuration(s, i, day, startStep, r);
      ClearStudent(s, l.student, span, i);
      ClearInstructor(s, instructor, span, None, Some(i));
      ClearVehicle(s, vehicle, span, i);
      InstructorRowsWhole(s, instructor, Some(i));
      SpanReads(day, r);
      HoursCheckIsExact(s, instructor, span, None, Some(i));
      assert LessonWindowError(s, l.course, l.student, instructor, span, Some(i)).None?;
    }
  }

  lemma SpanReads(day: int, r: Window)
    requires WithinDay(r)
    ensures var span := At(day, r);
            && Aligned(span.start) && Aligned(span.end) && span.start < span.end
            && DayOf(span.start) == day == DayOf(span.end)
            && MinuteOfDay(span.start) == r.start && MinuteOfDay(span.end) == r.end
  {
    ClockReads(day, r.start);
    ClockReads(day, r.end);
  }

  lemma GridDuration(s: Schedule, i: nat, day: int, startStep: int, r: Window)
    requires i < |s.lessons| && s.lessons[i].course in s.courses
    requires DurationLimits(s.settings, false).start > 0 && MinuteRows(s)
    requires OfferGrid(s, i, startStep).min <= r.end - r.start <= OfferGrid(s, i, startStep).max
    ensures DurationAllowed(s.settings, false, At(day, r))
    ensures PackageError(s, s.lessons[i].course, s.lessons[i].student, At(day, r), Some(i)).None?
  {
    DurationFits(s.settings, day, r);
    PackageAllows(s, i, day, r);
  }

  lemma OffersKeepLimits(windows: seq<Window>, g: Grid, r: Window)
    requires Stepping(g) && Offers(windows, g, r.start, r.end)
    ensures g.min <= r.end - r.start <= g.max
  {
  }

  lemma DurationFits(settings: Option<Settings>, day: int, r: Window)
    requires 0 < DurationLimits(settings, false).start <= r.end - r.start <= DurationLimits(settings, false).end
    ensures DurationAllowed(settings, false, At(day, r))
  {
    MinutesOfSpan(day, r);
  }

  lemma MinutesOfSpan(day: int, r: Window)
    ensures At(day, r).end - At(day, r).start == (r.end - r.start) * MINUTE_MS
    ensures RoundMinutes(At(day, r)) == r.end - r.start
  {
  }

  lemma PackageAllows(s: Schedule, i: nat, day: int, r: Window)
    requires i < |s.lessons| && s.lessons[i].course in s.courses && MinuteRows(s) && r.start < r.end
    requires CourseMinutesLeft(s, i).Some? ==> r.end - r.start <= CourseMinutesLeft(s, i).value
    ensures PackageError(s, s.lessons[i].course, s.lessons[i].student, At(day, r), Some(i)).None?
  {
    OptionsCountMore(s.lessons, s.lessons[i].course, s.lessons[i].student, i);
    MinutesOfSpan(day, r);
  }

  // ---------------------------------------------------------------- offers and the clock

  /** The current minute, when the day is today. */
  function ClockOn(day: int, t: int): Option<int> {
    if day == DayOf(t) then Some(MinuteOfDay(t)) else None
  }

  predicate Moves(l: Lesson, m: Lesson) {
    m.span != l.span || m.instructor != l.instructor
  }

  /** The guards of an edit that do not look at the new times. */
  predicate EditableAt(l: Lesson, p: LessonPatch, t: int) {
    var m := Patched(l, p);
    && l.status == Scheduled && t < l.span.end && m.vehicle.Some?
    && (m.instructor != l.instructor ==> l.practice)
    && (p.instructor.Some? ==> p.seen.Some?)
    && (p.seen.Some? ==> p.seen.value == SeenLesson(l.instructor, l.span, l.vehicle))
    && (Moves(l, m) ==> t < l.span.start)
  }

  /** An offer of another day before today is past; one of today is ahead unless it starts in
      the current minute. */
  lemma AheadOfClock(day: int, r: Window, t: int)
    requires 0 <= r.start < DAY_MINUTES && (day == DayOf(t) ==> MinuteOfDay(t) <= r.start)
    ensures t < At(day, r).start <==> DayOf(t) <= day && ClockOn(day, t) != Some(r.start)
  {
    var start := At(day, r).start;
    ClockReads(day, r.start);
    assert t == DayOf(t) * DAY_MS + t % DAY_MS && 0 <= t % DAY_MS < DAY_MS;
    assert MinuteOfDay(t) * MINUTE_MS <= t % DAY_MS < (MinuteOfDay(t) + 1) * MINUTE_MS;
    if DayOf(t) < day {
      assert (DayOf(t) + 1) * DAY_MS <= day * DAY_MS;
    } else if DayOf(t) > day {
      assert (day + 1) * DAY_MS <= DayOf(t) * DAY_MS;
    }
  }

  /** The whole edit to an offered time, offered and saved at the same instant: it succeeds
      exactly when the lesson may be edited at all and, if time or instructor change, the day
      is not over and the offer does not start in the current minute. */
  lemma OfferedEditExactly(s: Schedule, i: nat, instructor: Id, vehicle: Id, day: int, startStep: int, r: Window,
                           p: LessonPatch, t: int)
    requires i < |s.lessons| && s.lessons[i].course in s.courses && startStep > 0 && !s.lessons[i].deleted
    requires DurationLimits(s.settings, false).start > 0 && MinuteRows(s) && ClockHours(s)
    requires Patched(s.lessons[i], p) == MovedTo(s.lessons[i], At(day, r), instructor, vehicle)
    ensures Offered(s, i, instructor, vehicle, day, ClockOn(day, t), startStep, r) ==>
              (UpdateLesson(s, i, p, t).Ok? <==>
                 && EditableAt(s.lessons[i], p, t)
                 && (Moves(s.lessons[i], Patched(s.lessons[i], p)) ==>
                       DayOf(t) <= day && ClockOn(day, t) != Some(r.start)))
  {
    if Offered(s, i, instructor, vehicle, day, ClockOn(day, t), startStep, r) {
      OfferedMovePasses(s, i, instructor, vehicle, day, ClockOn(day, t), startStep, r);
      OfferedFits(s, i, instructor, vehicle, day, ClockOn(day, t), startStep, r);
      EditWindowsAreExact(s, i, instructor, vehicle, day, ClockOn(day, t), r);
      AheadOfClock(day, r, t);
      EditableByParts(s.lessons[i], p, t);
    }
  }

  lemma EditableByParts(l: Lesson, p: LessonPatch, t: int)
    ensures EditableError(l, p, t).None? <==>
              EditableAt(l, p, t) && (Moves(l, Patched(l, p)) ==> t < Patched(l, p).span.start)
  {
  }

  /** A practice lesson at 12:00 of day 0 whose instructor works from 8:00 to 16:00. */
  function OneLesson(): Schedule {
    Schedule([Lesson(0, 5, 7, Some(2), true, At(0, Window(720, 780)), Scheduled, false)], [],
             map[0 := Course(Practical, 30, 1, true, false)], map[(7, 0) := Window(480, 960)], [], None)
  }

  lemma OneLessonHasNoOtherRows()
    ensures var s := OneLesson();
            && InstructorRows(s, 7, None, Some(0)) == [] && StudentRows(s, 5, 0) == [] && VehicleRows(s, 2, 0) == []
            && CourseMinutesLeft(s, 0) == Some(1800)
  {
    var s := OneLesson();
    assert s.lessons[..0] == [];
  }

  lemma TenIsOffered()
    ensures Offered(OneLesson(), 0, 7, 2, 0, Some(600), 15, Window(600, 660))
  {
    var s, r := OneLesson(), Window(600, 660);
    OneLessonHasNoOtherRows();
    EditWindowsAreExact(s, 0, 7, 2, 0, Some(600), r);
    assert Fits(EditWindows(s, 0, 7, 2, 0, Some(600)), r);
    assert OfferGrid(s, 0, 15) == Grid(60, 120, 15, 15);
  }

  /** The edit that moves the lesson to 10:00. */
  function ToTen(): LessonPatch {
    LessonPatch(Some(At(0, Window(600, 660)).start), Some(At(0, Window(600, 660)).end), None, None, None)
  }

  lemma MoveToTenIsRefused()
    ensures var s, t := OneLesson(), At(0, Window(600, 660)).start;
            EditableAt(s.lessons[0], ToTen(), t) && UpdateLesson(s, 0, ToTen(), t) == Err(BadRequest)
  {
    var l, t := OneLesson().lessons[0], At(0, Window(600, 660)).start;
    assert Patched(l, ToTen()) == l.(span := At(0, Window(600, 660)));
    EditableByParts(l, ToTen(), t);
  }

  /** At 10:00 exactly, 10:00 is offered and refused. */
  lemma CurrentMinuteIsOfferedAndRefused()
    ensures var s, t := OneLesson(), At(0, Window(600, 660)).start;
            && Offered(s, 0, 7, 2, 0, ClockOn(0, t), 15, Window(600, 660))
            && EditableAt(s.lessons[0], ToTen(), t) && UpdateLesson(s, 0, ToTen(), t) == Err(BadRequest)
  {
    ClockReads(0, 600);
    TenIsOffered();
    MoveToTenIsRefused();
  }

  // ---------------------------------------------------------------- the options as computed

  lemma SubtractFromAllStep(windows: seq<Window>, used: seq<Window>, i: nat)
    requires i < |windows|
    ensures SubtractFromAll(windows[..i + 1], used)
         == SubtractFromAll(windows[..i], used) + Subtract(windows[i], used)
  {
    assert windows[..i + 1] == windows[..i] + [windows[i]];
    SubtractFromAllConcat(windows[..i], [windows[i]], used);
    assert SubtractFromAll([windows[i]], used) == Subtract(windows[i], used) + SubtractFromAll([], used);
  }

  method SubtractEach(windows: seq<Window>, used: seq<Window>) returns (free: seq<Window>)
    ensures free == SubtractFromAll(windows, used)
  {
    free := [];
    for i := 0 to |windows|
      invariant free == SubtractFromAll(windows[..i], used)
    {
      var more := SubtractWindows(windows[i], used);
      SubtractFromAllStep(windows, used, i);
      free := free + more;
    }
    assert windows[..|windows|] == windows;
  }

  function UsedIn(used: map<Id, seq<Window>>, vehicle: Id): seq<Window> {
    if vehicle in used then used[vehicle] else []
  }

  ghost predicate Grouped(used: map<Id, seq<Window>>, uses: seq<Use>, day: Window) {
    forall v: Id :: UsedIn(used, v) == OnDay(UsedBy(uses, v), day)
  }

  function WithRow(used: map<Id, seq<Window>>, row: Use, day: Window): map<Id, seq<Window>> {
    if Overlaps(row.span, day) && row.vehicle.Some?
    then used[row.vehicle.value := UsedIn(used, row.vehicle.value) + [TimeWindowFromDates(row.span, day)]]
    else used
  }

  lemma OnDayAppend(rows: seq<Window>, row: Window, day: Window)
    ensures OnDay(rows + [row], day)
         == OnDay(rows, day) + if Overlaps(row, day) then [TimeWindowFromDates(row, day)] else []
  {
    assert (rows + [row])[..|rows|] == rows;
  }

  lemma UsedByAppend(uses: seq<Use>, row: Use, vehicle: Id)
    ensures UsedBy(uses + [row], vehicle)
         == UsedBy(uses, vehicle) + if row.vehicle == Some(vehicle) then [row.span] else []
  {
    assert (uses + [row])[..|uses|] == uses;
  }

  lemma GroupedWithRow(used: map<Id, seq<Window>>, uses: seq<Use>, row: Use, day: Window)
    requires Grouped(used, uses, day)
    ensures Grouped(WithRow(used, row, day), uses + [row], day)
  {
    forall v: Id ensures UsedIn(WithRow(used, row, day), v) == OnDay(UsedBy(uses + [row], v), day) {
      UsedByAppend(uses, row, v);
      assert UsedIn(used, v) == OnDay(UsedBy(uses, v), day);
      if row.vehicle == Some(v) {
        OnDayAppend(UsedBy(uses, v), row.span, day);
      } else {
        assert UsedBy(uses + [row], v) == UsedBy(uses, v);
      }
    }
  }

  /** One pass over the rows groups the day's blocks by vehicle. */
  method GroupByVehicle(uses: seq<Use>, day: Window) returns (used: map<Id, seq<Window>>)
    ensures Grouped(used, uses, day)
  {
    used := map[];
    for k := 0 to |uses|
      invariant Grouped(used, uses[..k], day)
    {
      GroupedWithRow(used, uses[..k], uses[k], day);
      assert uses[..k + 1] == uses[..k] + [uses[k]];
      // The query returns the rows of the day; a row without a vehicle is skipped.
      var row := uses[k];
      if Overlaps(row.span, day) && row.vehicle.Some? {
        var taken := UsedIn(used, row.vehicle.value);
        used := used[row.vehicle.value := taken + [TimeWindowFromDates(row.span, day)]];
      }
    }
    assert uses[..|uses|] == uses;
  }

  function FreeOf(vehicle: Id, uses: seq<Use>, day: Window, windows: seq<Window>): seq<Window> {
    SubtractFromAll(windows, OnDay(UsedBy(uses, vehicle), day))
  }

  ghost predicate HasOffer(windows: seq<Window>, g: Grid)
    requires Stepping(g)
  {
    exists start, end :: Offers(windows, g, start, end)
  }

  /** The vehicles with at least one option, each with its free windows. */
  method ResolveAvailableVehicleWindows(vehicles: seq<Id>, uses: seq<Use>, day: Window, windows: seq<Window>, g: Grid)
    returns (available: map<Id, seq<Window>>)
    requires Stepping(g)
    ensures forall v :: v in available <==> v in vehicles && HasOffer(FreeOf(v, uses, day, windows), g)
    ensures forall v | v in available :: available[v] == FreeOf(v, uses, day, windows)
  {
    available := map[];
    if |vehicles| == 0 || |windows| == 0 {
      return;
    }
    var used := GroupByVehicle(uses, day);
    for i := 0 to |vehicles|
      invariant forall v :: v in available <==> v in vehicles[..i] && HasOffer(FreeOf(v, uses, day, windows), g)
      invariant forall v | v in available :: available[v] == FreeOf(v, uses, day, windows)
    {
      var free := SubtractEach(windows, UsedIn(used, vehicles[i]));
      assert free == FreeOf(vehicles[i], uses, day, windows);
      var any := HasOptions(g, free);
      if any {
        available := available[vehicles[i] := free];
      }
      assert vehicles[..i + 1] == vehicles[..i] + [vehicles[i]];
    }
    assert vehicles[..|vehicles|] == vehicles;
  }

  method HasOptions(g: Grid, windows: seq<Window>) returns (any: bool)
    requires Stepping(g)
    ensures any <==> HasOffer(windows, g)
  {
    var options := BuildScheduleAvailabilityOptions(g, windows);
    any := |options| > 0;
    if any {
      var first := options[0];
      assert first in options && first.ends[0] in first.ends;
      assert Listed(options, first.start, first.ends[0]);
      assert Offers(windows, g, first.start, first.ends[0]);
    } else {
      forall a, b ensures !Offers(windows, g, a, b) {
        assert !Listed(options, a, b);
      }
    }
  }

  /** The whole computation: each stage replaces the windows of the one before. */
  method GetLessonEditAvailabilityOptions(s: Schedule, i: nat, instructor: Id, vehicle: Option<Id>, day: int,
                                          now: Option<int>, startStep: int, vehicles: seq<Id>)
    returns (options: seq<StartOption>)
    requires i < |s.lessons| && s.lessons[i].course in s.courses && startStep > 0
    ensures forall start, end :: Listed(options, start, end) <==>
              && vehicle.Some? && vehicle.value in vehicles
              && Offered(s, i, instructor, vehicle.value, day, now, startStep, Window(start, end))
  {
    options := [];
    var g := OfferGrid(s, i, startStep);
    var free := DayWindows(s, instructor, day, None, Some(i));
    if free.None? || g.max < g.min || vehicle.None? {
      return;
    }
    var range := DayRange(day);
    var windows := SubtractEach(free.value, OnDay(StudentRows(s, s.lessons[i].student, i), range));
    if now.Some? {
      windows := FromNow(windows, now.value);
    }
    var available := ResolveAvailableVehicleWindows(vehicles, Uses(s, i), range, windows, g);
    ghost var last := EditWindows(s, i, instructor, vehicle.value, day, now);
    assert last == FreeOf(vehicle.value, Uses(s, i), range, windows);
    windows := if vehicle.value in available then available[vehicle.value] else [];
    options := BuildScheduleAvailabilityOptions(g, windows);
    forall start, end
      ensures Listed(options, start, end) <==> vehicle.value in vehicles && Offers(last, g, start, end)
    {
      assert Offers(last, g, start, end) ==> HasOffer(last, g);
    }
  }
}
