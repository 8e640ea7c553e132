/** Which times are offered for a lesson, over the rows of the tables: on the grid, not too long,
    in the working hours, not past, and with instructor, student and vehicle free. */
module LessonOfferLaw {
  import opened Chronology
  import opened TimeWindows
  import opened Schedule
  import opened ScheduleHours
  import opened ScheduleTables
  import opened AvailabilityOptions
  import opened LessonEditOptions

  // ---------------------------------------------------------------- rows of the student

  predicate StudentLessonsApart(lessons: seq<Lesson>, student: Id, span: Window, except: nat) {
    forall i | 0 <= i < |lessons| && i != except && Counts(lessons[i]) && lessons[i].student == student ::
      Apart(lessons[i].span, span)
  }

  predicate StudentEventsApart(events: seq<Event>, student: Id, span: Window) {
    forall i | 0 <= i < |events| && Runs(events[i]) && student in events[i].participants ::
      Apart(events[i].span, span)
  }

  lemma ClearAppend(rows: seq<Window>, more: bool, row: Window, span: Window)
    ensures Clear(rows + if more then [row] else [], span) <==> Clear(rows, span) && (more ==> Apart(row, span))
  {
    var all := rows + if more then [row] else [];
    assert more ==> all == rows + [row] && row in all;
    assert !more ==> all == rows;
    assert forall w :: w in all <==> w in rows || (more && w == row);
  }

  lemma {:induction false} StudentLessonsClear(lessons: seq<Lesson>, student: Id, span: Window, except: nat)
    ensures Clear(StudentLessons(lessons, student, except), span) <==>
            StudentLessonsApart(lessons, student, span, except)
  {
    if lessons != [] {
      var n := |lessons| - 1;
      var counted := lessons[n].student == student && Counts(lessons[n]) && n != except;
      StudentLessonsClear(lessons[..n], student, span, except);
      ClearAppend(StudentLessons(lessons[..n], student, except), counted, lessons[n].span, span);
      assert StudentLessonsApart(lessons, student, span, except) <==>
             StudentLessonsApart(lessons[..n], student, span, except) && (counted ==> Apart(lessons[n].span, span));
    }
  }

  lemma {:induction false} StudentEventsClear(events: seq<Event>, student: Id, span: Window)
    ensures Clear(StudentEvents(events, student), span) <==> StudentEventsApart(events, student, span)
  {
    if events != [] {
      var n := |events| - 1;
      var counted := student in events[n].participants && Runs(events[n]);
      StudentEventsClear(events[..n], student, span);
      ClearAppend(StudentEvents(events[..n], student), counted, events[n].span, span);
      assert StudentEventsApart(events, student, span) <==>
             StudentEventsApart(events[..n], student, span) && (counted ==> Apart(events[n].span, span));
    }
  }

  lemma ClearBoth(a: seq<Window>, b: seq<Window>, span: Window)
    ensures Clear(a + b, span) <==> Clear(a, span) && Clear(b, span)
  {
    assert forall w :: w in a + b <==> w in a || w in b;
  }

  lemma StudentRowsClear(s: Schedule, student: Id, span: Window, except: nat)
    ensures Clear(StudentRows(s, student, except), span) <==> StudentFree(s, student, span, Some(except), None)
  {
    StudentLessonsClear(s.lessons, student, span, except);
    StudentEventsClear(s.events, student, span);
    ClearBoth(StudentLessons(s.lessons, student, except), StudentEvents(s.events, student), span);
  }

  // ---------------------------------------------------------------- rows of the vehicle

  predicate LessonUsesApart(lessons: seq<Lesson>, vehicle: Id, span: Window, except: nat) {
    forall i | 0 <= i < |lessons| && i != except && Counts(lessons[i]) && lessons[i].vehicle == Some(vehicle) ::
      Apart(lessons[i].span, span)
  }

  predicate EventUsesApart(events: seq<Event>, vehicle: Id, span: Window) {
    forall i | 0 <= i < |events| && Runs(events[i]) && events[i].kind == Drive && events[i].vehicle == Some(vehicle) ::
      Apart(events[i].span, span)
  }

  lemma {:induction false} UsedByConcat(a: seq<Use>, b: seq<Use>, vehicle: Id)
    ensures UsedBy(a + b, vehicle) == UsedBy(a, vehicle) + UsedBy(b, vehicle)
  {
    if b == [] {
      assert a + b == a;
    } else {
      assert (a + b)[..|a + b| - 1] == a + b[..|b| - 1];
      UsedByConcat(a, b[..|b| - 1], vehicle);
    }
  }

  lemma UsedByOne(use: Use, vehicle: Id)
    ensures UsedBy([use], vehicle) == if use.vehicle == Some(vehicle) then [use.span] else []
    ensures UsedBy([], vehicle) == []
  {
    assert [use][..0] == [];
  }

  lemma UsesAppend(uses: seq<Use>, more: bool, use: Use, vehicle: Id, span: Window)
    ensures Clear(UsedBy(uses + if more then [use] else [], vehicle), span) <==>
            Clear(UsedBy(uses, vehicle), span) && (more && use.vehicle == Some(vehicle) ==> Apart(use.span, span))
  {
    UsedByConcat(uses, if more then [use] else [], vehicle);
    UsedByOne(use, vehicle);
    ClearAppend(UsedBy(uses, vehicle), more && use.vehicle == Some(vehicle), use.span, span);
  }

  lemma {:induction false} LessonUsesClear(lessons: seq<Lesson>, vehicle: Id, span: Window, except: nat)
    ensures Clear(UsedBy(LessonUses(lessons, except), vehicle), span) <==>
            LessonUsesApart(lessons, vehicle, span, except)
  {
    if lessons != [] {
      var n := |lessons| - 1;
      var counted := Counts(lessons[n]) && n != except;
      LessonUsesClear(lessons[..n], vehicle, span, except);
      UsesAppend(LessonUses(lessons[..n], except), counted, Use(lessons[n].vehicle, lessons[n].span), vehicle, span);
      assert LessonUsesApart(lessons, vehicle, span, except) <==>
             && LessonUsesApart(lessons[..n], vehicle, span, except)
             && (counted && lessons[n].vehicle == Some(vehicle) ==> Apart(lessons[n].span, span));
    }
  }

  lemma {:induction false} EventUsesClear(events: seq<Event>, vehicle: Id, span: Window)
    ensures Clear(UsedBy(EventUses(events), vehicle), span) <==> EventUsesApart(events, vehicle, span)
  {
    if events != [] {
      var n := |events| - 1;
      var counted := events[n].kind == Drive && Runs(events[n]);
      EventUsesClear(events[..n], vehicle, span);
      UsesAppend(EventUses(events[..n]), counted, Use(events[n].vehicle, events[n].span), vehicle, span);
      assert EventUsesApart(events, vehicle, span) <==>
             && EventUsesApart(events[..n], vehicle, span)
             && (counted && events[n].vehicle == Some(vehicle) ==> Apart(events[n].span, span));
    }
  }

  lemma VehicleRowsClear(s: Schedule, vehicle: Id, span: Window, except: nat)
    ensures Clear(VehicleRows(s, vehicle, except), span) <==> VehicleFree(s, vehicle, span, Some(except), None)
  {
    LessonUsesClear(s.lessons, vehicle, span, except);
    EventUsesClear(s.events, vehicle, span);
    UsedByConcat(LessonUses(s.lessons, except), EventUses(s.events), vehicle);
    ClearBoth(UsedBy(LessonUses(s.lessons, except), vehicle), UsedBy(EventUses(s.events), vehicle), span);
  }

  // ---------------------------------------------------------------- the offer

  /** The options count every other lesson of the student in the course that is not cancelled. */
  lemma OthersMean(lessons: seq<Lesson>, l: Lesson, course: Id, student: Id, except: nat)
    ensures OtherMinutes([], course, student, except) == 0
    ensures OtherMinutes(lessons + [l], course, student, except)
         == OtherMinutes(lessons, course, student, except)
            + if Counts(l) && l.course == course && l.student == student && except != |lessons|
              then RoundMinutes(l.span) else 0
  {
    assert (lessons + [l])[..|lessons|] == lessons;
  }

  /** Minutes: one to two hours without settings, in steps of fifteen past the shortest, and no
      more than the package of the course still holds. */
  predicate OfferedLength(s: Schedule, i: nat, length: int)
    requires i < |s.lessons| && s.lessons[i].course in s.courses
  {
    var l := s.lessons[i];
    var c := s.courses[l.course];
    var shortest := match s.settings case None => 60 case Some(x) => x.practiceMin;
    var longest := match s.settings case None => 120 case Some(x) => x.practiceMax;
    && shortest <= length <= longest && (length - shortest) % 15 == 0
    && (c.kind == Practical || c.kind == Extra ==>
          length + OtherMinutes(s.lessons, l.course, l.student, i) <= 60 * c.totalHours)
  }

  /** The shortest lesson is not empty, rows are on whole minutes, and working hours are clock times. */
  predicate Sound(s: Schedule) {
    && (s.settings.Some? ==> s.settings.value.practiceMin > 0)
    && (forall l | l in s.lessons :: WholeMinute(l.span))
    && (forall e | e in s.events :: WholeMinute(e.span))
    && (forall b | b in s.blocks :: WholeMinute(b.span))
    && (forall k | k in s.hours :: 0 <= s.hours[k].start && s.hours[k].end < 1440)
  }

  predicate InHours(s: Schedule, instructor: Id, day: int, r: Window) {
    && (instructor, day) in s.hours
    && s.hours[(instructor, day)].start <= r.start && r.end <= s.hours[(instructor, day)].end
  }

  predicate AllFree(s: Schedule, i: nat, instructor: Id, vehicle: Id, span: Window)
    requires i < |s.lessons|
  {
    && Unblocked(s, instructor, span) && InstructorFree(s, instructor, span, Some(i), None)
    && StudentFree(s, s.lessons[i].student, span, Some(i), None) && VehicleFree(s, vehicle, span, Some(i), None)
  }

  lemma LengthOnGrid(s: Schedule, i: nat, startStep: int, r: Window)
    requires i < |s.lessons| && s.lessons[i].course in s.courses && startStep > 0 && Sound(s)
    ensures var g := OfferGrid(s, i, startStep);
            g.min <= g.max && OnGrid(g, r.start, r.end) <==>
              r.start % startStep == 0 && OfferedLength(s, i, r.end - r.start)
  {
    var g := OfferGrid(s, i, startStep);
    assert r.end - (r.start + g.min) == r.end - r.start - g.min;
  }

  lemma SoundMeans(s: Schedule)
    requires Sound(s)
    ensures MinuteRows(s) && ClockHours(s) && DurationLimits(s.settings, false).start > 0
  {
  }

  lemma AllClear(s: Schedule, i: nat, instructor: Id, vehicle: Id, span: Window)
    requires i < |s.lessons|
    ensures AllFree(s, i, instructor, vehicle, span) <==>
              && Clear(InstructorRows(s, instructor, None, Some(i)), span)
              && Clear(StudentRows(s, s.lessons[i].student, i), span) && Clear(VehicleRows(s, vehicle, i), span)
  {
    InstructorRowsClear(s, instructor, span, None, Some(i));
    StudentRowsClear(s, s.lessons[i].student, span, i);
    VehicleRowsClear(s, vehicle, span, i);
  }

  predicate Possible(s: Schedule, i: nat, instructor: Id, vehicle: Id, day: int, now: Option<int>, r: Window,
                     span: Window)
    requires i < |s.lessons|
  {
    && InHours(s, instructor, day, r) && (now.Some? ==> now.value <= r.start)
    && AllFree(s, i, instructor, vehicle, span)
  }

  lemma WindowsOverTables(s: Schedule, i: nat, instructor: Id, vehicle: Id, day: int, now: Option<int>, r: Window,
                          span: Window)
    requires i < |s.lessons| && MinuteRows(s) && WithinDay(r) && span == At(day, r)
    ensures Fits(EditWindows(s, i, instructor, vehicle, day, now), r) <==>
            Possible(s, i, instructor, vehicle, day, now, r, span)
  {
    AllClear(s, i, instructor, vehicle, span);
    EditWindowsAreExact(s, i, instructor, vehicle, day, now, r);
  }

  lemma OffersMean(s: Schedule, i: nat, instructor: Id, vehicle: Id, day: int, now: Option<int>, startStep: int,
                   r: Window, possible: bool)
    requires i < |s.lessons| && s.lessons[i].course in s.courses && startStep > 0 && Sound(s)
    requires WithinDay(r) ==> (Fits(EditWindows(s, i, instructor, vehicle, day, now), r) <==> possible)
    requires possible && r.start < r.end ==> WithinDay(r)
    ensures Offered(s, i, instructor, vehicle, day, now, startStep, r) <==>
            r.start % startStep == 0 && OfferedLength(s, i, r.end - r.start) && possible
  {
    SoundMeans(s);
    LengthOnGrid(s, i, startStep, r);
    OfferedFits(s, i, instructor, vehicle, day, now, startStep, r);
  }

  /** A pair of minutes is offered for a lesson exactly when it starts on a step, has an allowed
      length, lies in the working hours of the instructor, is not past, and meets no block or other
      row of the instructor, no other row of the student and no other row of the vehicle. */
  lemma OffersOverTables(s: Schedule, i: nat, instructor: Id, vehicle: Id, day: int, now: Option<int>,
                         startStep: int, r: Window, span: Window)
    requires i < |s.lessons| && s.lessons[i].course in s.courses && startStep > 0 && Sound(s)
    requires span.start == day * 86_400_000 + r.start * 60_000 && span.end == day * 86_400_000 + r.end * 60_000
    ensures Offered(s, i, instructor, vehicle, day, now, startStep, r) <==>
              && r.start % startStep == 0 && OfferedLength(s, i, r.end - r.start)
              && InHours(s, instructor, day, r) && (now.Some? ==> now.value <= r.start)
              && AllFree(s, i, instructor, vehicle, span)
  {
    if WithinDay(r) {
      SoundMeans(s);
      WindowsOverTables(s, i, instructor, vehicle, day, now, r, span);
    }
    OffersMean(s, i, instructor, vehicle, day, now, startStep, r,
               Possible(s, i, instructor, vehicle, day, now, r, span));
  }
}
