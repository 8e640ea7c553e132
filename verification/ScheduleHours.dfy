/** The instructor-hours check works on minutes of a day; on whole-minute data it answers the
    question about instants: the request lies in the working window and overlaps no row. */
module ScheduleHours {
  import opened Chronology
  import opened TimeWindows
  import opened Schedule

  predicate Aligned(t: int) {
    t % MINUTE_MS == 0
  }

  predicate WholeMinutes(rows: seq<Window>) {
    forall r | r in rows :: Aligned(r.start) && Aligned(r.end) && r.start < r.end
  }

  /** The instants of a window of minutes on a day. */
  function At(day: int, w: Window): Window {
    Window(day * DAY_MS + w.start * MINUTE_MS, day * DAY_MS + w.end * MINUTE_MS)
  }

  predicate WithinDay(w: Window) {
    0 <= w.start < w.end < DAY_MINUTES
  }

  lemma ClockReads(day: int, m: int)
    requires 0 <= m < DAY_MINUTES
    ensures DayOf(day * DAY_MS + m * MINUTE_MS) == day && MinuteOfDay(day * DAY_MS + m * MINUTE_MS) == m
  {
    var t := day * DAY_MS + m * MINUTE_MS;
    assert 0 <= m * MINUTE_MS < DAY_MS;
    assert t / DAY_MS == day && t % DAY_MS == m * MINUTE_MS;
  }

  lemma ClockShows(t: int)
    requires Aligned(t)
    ensures 0 <= MinuteOfDay(t) < DAY_MINUTES && t == DayOf(t) * DAY_MS + MinuteOfDay(t) * MINUTE_MS
  {
    var k := t / MINUTE_MS;
    assert t == k * MINUTE_MS;
    assert t % DAY_MS == (k - DAY_MINUTES * DayOf(t)) * MINUTE_MS;
  }

  /** A row clipped to the day meets a request of that day exactly when the row does. */
  lemma ClippingIsExact(row: Window, day: int, r: Window)
    requires Aligned(row.start) && Aligned(row.end) && row.start < row.end && WithinDay(r)
    ensures Overlaps(row, At(day, r)) ==> Overlaps(row, DayRange(day))
    ensures Overlaps(row, DayRange(day)) ==>
              var w := TimeWindowFromDates(row, DayRange(day));
              w.start <= w.end && (Overlaps(w, r) <==> Overlaps(row, At(day, r)))
  {
    ClockShows(row.start);
    ClockShows(row.end);
    if Overlaps(row, DayRange(day)) {
      if row.start > DayRange(day).start {
        assert DayOf(row.start) == day;
      }
      if row.end < DayRange(day).end {
        assert DayOf(row.end) == day;
      }
    }
  }

  lemma {:induction false} OnDayElements(rows: seq<Window>, day: Window, w: Window)
    ensures w in OnDay(rows, day) <==>
            exists row :: row in rows && Overlaps(row, day) && w == TimeWindowFromDates(row, day)
  {
    if rows != [] {
      OnDayElements(rows[..|rows| - 1], day, w);
      assert forall row :: row in rows <==> row in rows[..|rows| - 1] || row == rows[|rows| - 1];
    }
  }

  lemma OnDayForward(rows: seq<Window>, day: int)
    requires WholeMinutes(rows)
    ensures Forward(OnDay(rows, DayRange(day)))
  {
    forall w | w in OnDay(rows, DayRange(day)) ensures w.start <= w.end {
      OnDayElements(rows, DayRange(day), w);
      var row :| row in rows && Overlaps(row, DayRange(day)) && w == TimeWindowFromDates(row, DayRange(day));
      ClippingIsExact(row, day, Window(0, 1));
    }
  }

  /** No row overlaps the request. */
  predicate Clear(rows: seq<Window>, span: Window) {
    forall row | row in rows :: !Overlaps(row, span)
  }

  lemma OnDayClear(rows: seq<Window>, day: int, r: Window)
    requires WholeMinutes(rows) && WithinDay(r)
    ensures (forall w | w in OnDay(rows, DayRange(day)) :: !Overlaps(w, r)) <==> Clear(rows, At(day, r))
  {
    if forall w | w in OnDay(rows, DayRange(day)) :: !Overlaps(w, r) {
      forall row | row in rows ensures !Overlaps(row, At(day, r)) {
        ClippingIsExact(row, day, r);
        OnDayElements(rows, DayRange(day), TimeWindowFromDates(row, DayRange(day)));
      }
    }
    if Clear(rows, At(day, r)) {
      forall w | w in OnDay(rows, DayRange(day)) ensures !Overlaps(w, r) {
        OnDayElements(rows, DayRange(day), w);
        var row :| row in rows && Overlaps(row, DayRange(day)) && w == TimeWindowFromDates(row, DayRange(day));
        ClippingIsExact(row, day, r);
      }
    }
  }

  lemma DayWindowsFit(s: Schedule, instructor: Id, day: int, exceptEvent: Option<nat>, exceptLesson: Option<nat>,
                      r: Window)
    requires WithinDay(r) && (instructor, day) in s.hours
    requires WholeMinutes(InstructorRows(s, instructor, exceptEvent, exceptLesson))
    ensures Fits(DayWindows(s, instructor, day, exceptEvent, exceptLesson).value, r) <==>
              && Inside(r, s.hours[(instructor, day)])
              && Clear(InstructorRows(s, instructor, exceptEvent, exceptLesson), At(day, r))
  {
    var rows := InstructorRows(s, instructor, exceptEvent, exceptLesson);
    OnDayForward(rows, day);
    SubtractFits(s.hours[(instructor, day)], OnDay(rows, DayRange(day)), r);
    OnDayClear(rows, day, r);
  }

  /** The check passes exactly when the request is non-empty, stays within one day and that
      day's working window, and overlaps no block, lesson or event of the instructor. */
  lemma HoursCheckIsExact(s: Schedule, instructor: Id, span: Window, exceptEvent: Option<nat>,
                          exceptLesson: Option<nat>)
    requires Aligned(span.start) && Aligned(span.end)
    requires WholeMinutes(InstructorRows(s, instructor, exceptEvent, exceptLesson))
    ensures HoursError(s, instructor, span, exceptEvent, exceptLesson).None? <==>
              && span.start < span.end && DayOf(span.start) == DayOf(span.end)
              && (instructor, DayOf(span.start)) in s.hours
              && Inside(Window(MinuteOfDay(span.start), MinuteOfDay(span.end)),
                        s.hours[(instructor, DayOf(span.start))])
              && Clear(InstructorRows(s, instructor, exceptEvent, exceptLesson), span)
  {
    var day, r := DayOf(span.start), Window(MinuteOfDay(span.start), MinuteOfDay(span.end));
    ClockShows(span.start);
    ClockShows(span.end);
    if span.start < span.end && DayOf(span.start) == DayOf(span.end) && (instructor, day) in s.hours {
      assert WithinDay(r) && At(day, r) == span;
      DayWindowsFit(s, instructor, day, exceptEvent, exceptLesson, r);
    }
  }

  // ---------------------------------------------------------------- rows and queries

  lemma {:induction false} LessonRowsElements(lessons: seq<Lesson>, instructor: Id, except: Option<nat>, w: Window)
    ensures w in LessonRows(lessons, instructor, except) <==>
            exists i :: 0 <= i < |lessons| && lessons[i].instructor == instructor && ActiveLesson(lessons[i])
                        && except != Some(i) && lessons[i].span == w
  {
    if lessons != [] {
      var n := |lessons| - 1;
      LessonRowsElements(lessons[..n], instructor, except, w);
      assert forall i | 0 <= i < n :: lessons[..n][i] == lessons[i];
    }
  }

  lemma {:induction false} EventRowsElements(events: seq<Event>, instructor: Id, except: Option<nat>, w: Window)
    ensures w in EventRows(events, instructor, except) <==>
            exists i :: 0 <= i < |events| && events[i].instructor == instructor && ActiveEvent(events[i])
                        && except != Some(i) && events[i].span == w
  {
    if events != [] {
      var n := |events| - 1;
      EventRowsElements(events[..n], instructor, except, w);
      assert forall i | 0 <= i < n :: events[..n][i] == events[i];
    }
  }

  /** An instructor whose rows are clear of the request has no conflicting lesson or event. */
  lemma ClearInstructor(s: Schedule, instructor: Id, span: Window, exceptEvent: Option<nat>, exceptLesson: Option<nat>)
    requires Clear(InstructorRows(s, instructor, exceptEvent, exceptLesson), span)
    ensures !InstructorHasLesson(s, instructor, span, exceptLesson)
    ensures !InstructorHasEvent(s, instructor, span, exceptEvent)
  {
    var rows := InstructorRows(s, instructor, exceptEvent, exceptLesson);
    forall i | 0 <= i < |s.lessons| && s.lessons[i].instructor == instructor
      ensures !LessonTakes(s, i, span, exceptLesson)
    {
      LessonRowsElements(s.lessons, instructor, exceptLesson, s.lessons[i].span);
      assert ActiveLesson(s.lessons[i]) && exceptLesson != Some(i) ==> s.lessons[i].span in rows;
    }
    forall i | 0 <= i < |s.events| && s.events[i].instructor == instructor
      ensures !EventTakes(s, i, span, exceptEvent)
    {
      EventRowsElements(s.events, instructor, exceptEvent, s.events[i].span);
      assert ActiveEvent(s.events[i]) && exceptEvent != Some(i) ==> s.events[i].span in rows;
    }
  }
}
