/** Splitting a lesson into the busy minutes of Polish days when the clock may change within
    the lesson.  `off(t)` is the offset of local time at instant `t`, in milliseconds. */
module BusyIntervals {
  import opened TimeWindows
  import opened Schedule
  import opened ScheduleHours

  function LocalDay(off: int -> int, t: int): int {
    DayOf(t + off(t))
  }

  function LocalMinute(off: int -> int, t: int): int {
    MinuteOfDay(t + off(t))
  }

  // ---------------------------------------------------------------- segments

  /** Halves the gap down to an instant at which the offset stops being `offset`. */
  function Bisect(off: int -> int, offset: int, before: int, after: int): (r: int)
    requires before < after && off(before) == offset && off(after) != offset
    ensures before < r <= after && off(r - 1) == offset && off(r) != offset
    decreases after - before
  {
    if before + 1 >= after then after
    else
      var middle := (before + after) / 2;
      if off(middle) == offset then Bisect(off, offset, middle, after) else Bisect(off, offset, before, middle)
  }

  function SegmentEnd(off: int -> int, start: int, end: int): (r: int)
    requires start < end
    ensures start < r <= end && off(r - 1) == off(start) && (r < end ==> off(r) != off(start))
  {
    if off(end - 1) != off(start) then Bisect(off, off(start), start, end - 1) else end
  }

  function Segments(off: int -> int, start: int, end: int): seq<Window>
    decreases end - start
  {
    if start >= end then []
    else [Window(start, SegmentEnd(off, start, end))] + Segments(off, SegmentEnd(off, start, end), end)
  }

  /** Busy minutes of a day; the end may be a fraction when the data is not in whole minutes. */
  datatype BusyInterval = BusyInterval(date: int, startMin: int, endMin: real)

  function Entry(off: int -> int, date: int, w: Window): BusyInterval {
    var startMin := LocalMinute(off, w.start);
    BusyInterval(date, startMin, startMin as real + (w.end - w.start) as real / 60_000.0)
  }

  function Entries(off: int -> int, date: int, segments: seq<Window>): seq<BusyInterval> {
    if segments == [] then [] else [Entry(off, date, segments[0])] + Entries(off, date, segments[1..])
  }

  /** The binary search loop. */
  method FindChange(off: int -> int, segmentStart: int, endMillis: int) returns (segmentEnd: int)
    requires segmentStart < endMillis && off(endMillis - 1) != off(segmentStart)
    ensures segmentEnd == SegmentEnd(off, segmentStart, endMillis)
  {
    var before, after := segmentStart, endMillis - 1;
    while before + 1 < after
      invariant before < after && off(before) == off(segmentStart) && off(after) != off(segmentStart)
      invariant Bisect(off, off(segmentStart), before, after) == SegmentEnd(off, segmentStart, endMillis)
      decreases after - before
    {
      var middle := (before + after) / 2;
      if off(middle) == off(segmentStart) {
        before := middle;
      } else {
        after := middle;
      }
    }
    segmentEnd := after;
  }

  /** Terminates for every offset function and appends one entry for each segment. */
  method AppendBusyOnPolishDay(off: int -> int, busy: seq<BusyInterval>, date: int, start: int, end: int)
    returns (grown: seq<BusyInterval>)
    ensures grown == busy + Entries(off, date, Segments(off, start, end))
  {
    grown := busy;
    var segmentStart := start;
    while segmentStart < end
      invariant grown + Entries(off, date, Segments(off, segmentStart, end))
             == busy + Entries(off, date, Segments(off, start, end))
      decreases end - segmentStart
    {
      var segmentEnd := end;
      if off(end - 1) != off(segmentStart) {
        segmentEnd := FindChange(off, segmentStart, end);
      }
      var startMin := LocalMinute(off, segmentStart);
      var entry := BusyInterval(date, startMin, startMin as real + (segmentEnd - segmentStart) as real / 60_000.0);
      EntriesUnfold(off, date, segmentStart, end);
      assert grown + ([entry] + Entries(off, date, Segments(off, segmentEnd, end)))
          == (grown + [entry]) + Entries(off, date, Segments(off, segmentEnd, end));
      grown := grown + [entry];
      segmentStart := segmentEnd;
    }
  }

  lemma EntriesUnfold(off: int -> int, date: int, start: int, end: int)
    requires start < end
    ensures var next := SegmentEnd(off, start, end);
            Entries(off, date, Segments(off, start, end))
            == [Entry(off, date, Window(start, next))] + Entries(off, date, Segments(off, next, end))
  {
    var next := SegmentEnd(off, start, end);
    assert Segments(off, start, end)[1..] == Segments(off, next, end);
  }

  // ---------------------------------------------------------------- what the segments are

  /** Non-empty windows that follow each other without gap or overlap from start to end. */
  predicate Tiles(segments: seq<Window>, start: int, end: int) {
    if segments == [] then start >= end
    else segments[0].start == start < segments[0].end <= end && Tiles(segments[1..], segments[0].end, end)
  }

  function TotalMinutes(busy: seq<BusyInterval>): real {
    if busy == [] then 0.0 else busy[0].endMin - busy[0].startMin as real + TotalMinutes(busy[1..])
  }

  /** The segments tile the interval, so its length is conserved, whatever the offsets do. */
  lemma {:induction false} SegmentsTile(off: int -> int, date: int, start: int, end: int)
    requires start <= end
    ensures Tiles(Segments(off, start, end), start, end)
    ensures TotalMinutes(Entries(off, date, Segments(off, start, end))) * 60_000.0 == (end - start) as real
    decreases end - start
  {
    if start < end {
      SegmentsTile(off, date, SegmentEnd(off, start, end), end);
      EntriesUnfold(off, date, start, end);
    }
  }

  predicate Uniform(off: int -> int, w: Window) {
    forall t | w.start <= t < w.end :: off(t) == off(w.start)
  }

  /** No offset comes back after another one: in particular when it changes at most once. */
  predicate NoReturn(off: int -> int, lo: int, hi: int) {
    forall i, j, k | lo <= i < j < k < hi && off(i) == off(k) :: off(j) == off(i)
  }

  lemma FirstSegmentUniform(off: int -> int, start: int, end: int)
    requires start < end && NoReturn(off, start, end)
    ensures Uniform(off, Window(start, SegmentEnd(off, start, end)))
  {
    var last := SegmentEnd(off, start, end) - 1;
    forall t | start <= t <= last ensures off(t) == off(start) {
      assert start < t < last ==> off(start) == off(last);
    }
  }

  lemma {:induction false} SegmentsUniform(off: int -> int, start: int, end: int)
    requires NoReturn(off, start, end)
    ensures forall w | w in Segments(off, start, end) :: Uniform(off, w) && start <= w.start && w.end <= end
    decreases end - start
  {
    if start < end {
      var next := SegmentEnd(off, start, end);
      FirstSegmentUniform(off, start, end);
      assert NoReturn(off, next, end);
      SegmentsUniform(off, next, end);
      assert Segments(off, start, end) == [Window(start, next)] + Segments(off, next, end);
    }
  }

  ghost predicate AlwaysUniform(off: int -> int, lo: int, hi: int) {
    forall start, end, w | lo <= start < end <= hi && w in Segments(off, start, end) :: Uniform(off, w)
  }

  /** Every segment of every interval keeps one offset exactly when no offset comes back. */
  lemma UniformExactlyWithoutReturn(off: int -> int, lo: int, hi: int)
    ensures AlwaysUniform(off, lo, hi) <==> NoReturn(off, lo, hi)
  {
    if NoReturn(off, lo, hi) {
      forall start, end, w | lo <= start < end <= hi && w in Segments(off, start, end) ensures Uniform(off, w) {
        SegmentsUniform(off, start, end);
      }
    }
    if AlwaysUniform(off, lo, hi) {
      forall i, j, k | lo <= i < j < k < hi && off(i) == off(k) ensures off(j) == off(i) {
        // The last instant has the offset of the first, so the search is skipped.
        var w := Window(i, k + 1);
        assert w in Segments(off, i, k + 1);
        assert Uniform(off, w);
        assert w.start <= j < w.end;
      }
    }
  }

  // ---------------------------------------------------------------- slots of a day

  predicate SlotOverlapsLesson(slotDate: int, slotStart: int, slotEnd: int, x: BusyInterval) {
    slotDate == x.date && !(slotEnd <= x.startMin || slotStart as real >= x.endMin)
  }

  ghost predicate Blocked(busy: seq<BusyInterval>, date: int, slot: Window) {
    exists x :: x in busy && SlotOverlapsLesson(date, slot.start, slot.end, x)
  }

  predicate InSlot(off: int -> int, t: int, slot: Window) {
    slot.start <= LocalMinute(off, t) < slot.end
  }

  ghost predicate BusyInSlot(off: int -> int, w: Window, slot: Window) {
    exists t :: w.start <= t < w.end && InSlot(off, t, slot)
  }

  /** Offsets are whole minutes and change on whole minutes. */
  ghost predicate MinuteOffsets(off: int -> int) {
    forall t: int :: Aligned(off(t)) && off(t) == off(t - t % MINUTE_MS)
  }

  /** The clock runs evenly along a segment with one offset that stays within a day. */
  lemma ClockAlong(off: int -> int, day: int, w: Window, t: int)
    requires w.start <= t < w.end && Uniform(off, w)
    requires Aligned(w.start) && Aligned(off(w.start))
    requires LocalDay(off, w.start) == day && LocalDay(off, t) == day
    ensures LocalMinute(off, t) == LocalMinute(off, w.start) + (t - w.start) / MINUTE_MS
  {
    var a := w.start + off(w.start);
    var b := t + off(t);
    AlignedSum(w.start, off(w.start));
    ClockShows(a);
    MinuteOfLater(day, MinuteOfDay(a), t - w.start, b);
  }

  lemma AlignedSum(x: int, y: int)
    requires Aligned(x) && Aligned(y)
    ensures Aligned(x + y) && Aligned(x - y)
  {
  }

  lemma MinuteOfLater(day: int, minute: int, d: int, b: int)
    requires b == day * DAY_MS + minute * MINUTE_MS + d && DayOf(b) == day
    ensures MinuteOfDay(b) == minute + d / MINUTE_MS
  {
    assert b % DAY_MS == minute * MINUTE_MS + d;
  }

  /** One segment blocks a slot exactly when the clock shows a minute of the slot during it. */
  lemma SegmentBlocks(off: int -> int, day: int, w: Window, slot: Window)
    requires slot.start < slot.end && w.start < w.end && Uniform(off, w)
    requires Aligned(w.start) && Aligned(w.end) && Aligned(off(w.start))
    requires forall t | w.start <= t < w.end :: LocalDay(off, t) == day
    ensures SlotOverlapsLesson(day, slot.start, slot.end, Entry(off, day, w)) <==> BusyInSlot(off, w, slot)
  {
    var startMin, n := LocalMinute(off, w.start), (w.end - w.start) / MINUTE_MS;
    AlignedSum(w.end, w.start);
    assert w.end - w.start == n * MINUTE_MS;
    assert Entry(off, day, w).endMin == (startMin + n) as real;
    forall t | w.start <= t < w.end ensures LocalMinute(off, t) == startMin + (t - w.start) / MINUTE_MS {
      ClockAlong(off, day, w, t);
    }
    if BusyInSlot(off, w, slot) {
      var t :| w.start <= t < w.end && InSlot(off, t, slot);
      assert LocalMinute(off, t) == startMin + (t - w.start) / MINUTE_MS < startMin + n;
    }
    if slot.end > startMin && slot.start < startMin + n {
      var t := w.start + (Max(slot.start, startMin) - startMin) * MINUTE_MS;
      assert w.start <= t < w.end;
      assert LocalMinute(off, t) == startMin + (t - w.start) / MINUTE_MS;
      assert InSlot(off, t, slot);
    }
  }

  lemma MinuteBefore(t: int)
    ensures !Aligned(t) ==> t - t % MINUTE_MS == t - 1 - (t - 1) % MINUTE_MS
  {
  }

  lemma ChangeIsAligned(off: int -> int, t: int)
    requires MinuteOffsets(off)
    ensures off(t - 1) != off(t) ==> Aligned(t)
  {
    MinuteBefore(t);
    assert off(t) == off(t - t % MINUTE_MS);
    assert off(t - 1) == off(t - 1 - (t - 1) % MINUTE_MS);
  }

  lemma BlockedCons(x: BusyInterval, rest: seq<BusyInterval>, date: int, slot: Window)
    ensures Blocked([x] + rest, date, slot) <==>
              SlotOverlapsLesson(date, slot.start, slot.end, x) || Blocked(rest, date, slot)
  {
    assert forall y :: y in [x] + rest <==> y == x || y in rest;
  }

  lemma BusyInTwo(off: int -> int, start: int, middle: int, end: int, slot: Window)
    requires start <= middle <= end
    ensures BusyInSlot(off, Window(start, end), slot) <==>
            BusyInSlot(off, Window(start, middle), slot) || BusyInSlot(off, Window(middle, end), slot)
  {
  }

  /** Within one day, a slot is blocked exactly when some busy instant's clock time falls in
      it, across a change of offset as well. */
  lemma {:induction false} DayIsBlockedExactly(off: int -> int, day: int, start: int, end: int, slot: Window)
    requires slot.start < slot.end && MinuteOffsets(off) && NoReturn(off, start, end)
    requires Aligned(start) && Aligned(end)
    requires forall t | start <= t < end :: LocalDay(off, t) == day
    ensures Blocked(Entries(off, day, Segments(off, start, end)), day, slot) <==>
            BusyInSlot(off, Window(start, end), slot)
    decreases end - start
  {
    if start < end {
      var next := SegmentEnd(off, start, end);
      var first := Window(start, next);
      if next < end {
        ChangeIsAligned(off, next);
      }
      SegmentsUniform(off, start, end);
      assert first in Segments(off, start, end);
      SegmentBlocks(off, day, first, slot);
      DayIsBlockedExactly(off, day, next, end, slot);
      EntriesUnfold(off, day, start, end);
      BlockedCons(Entry(off, day, first), Entries(off, day, Segments(off, next, end)), day, slot);
      BusyInTwo(off, start, next, end, slot);
    }
  }

  // ---------------------------------------------------------------- days of a lesson

  /** The day loop of one lesson: clip to the day, append, go on to the next day. */
  function LessonBusy(off: int -> int, dayStart: int -> int, date: int, dateTo: int, l: Window): seq<BusyInterval>
    decreases dateTo - date
  {
    if date > dateTo then []
    else
      var start, end := Max(l.start, dayStart(date)), Min(l.end, dayStart(date + 1));
      if start >= end then []
      else Entries(off, date, Segments(off, start, end)) + LessonBusy(off, dayStart, date + 1, dateTo, l)
  }

  function FirstDate(off: int -> int, dayStart: int -> int, dateFrom: int, l: Window): int {
    LocalDay(off, Max(l.start, dayStart(dateFrom)))
  }

  function AllBusy(off: int -> int, dayStart: int -> int, dateFrom: int, dateTo: int, lessons: seq<Window>)
    : seq<BusyInterval>
  {
    if lessons == [] then []
    else
      var n := |lessons| - 1;
      AllBusy(off, dayStart, dateFrom, dateTo, lessons[..n])
      + LessonBusy(off, dayStart, FirstDate(off, dayStart, dateFrom, lessons[n]), dateTo, lessons[n])
  }

  method LoadStudentBusyIntervals(off: int -> int, dayStart: int -> int, dateFrom: int, dateTo: int,
                                  lessons: seq<Window>)
    returns (busy: seq<BusyInterval>)
    ensures busy == AllBusy(off, dayStart, dateFrom, dateTo, lessons)
  {
    busy := [];
    for i := 0 to |lessons|
      invariant busy == AllBusy(off, dayStart, dateFrom, dateTo, lessons[..i])
    {
      assert lessons[..i + 1][..i] == lessons[..i];
      busy := AppendLesson(off, dayStart, FirstDate(off, dayStart, dateFrom, lessons[i]), dateTo, lessons[i], busy);
    }
    assert lessons[..|lessons|] == lessons;
  }

  lemma LessonBusyUnfold(off: int -> int, dayStart: int -> int, date: int, dateTo: int, l: Window,
                         grown: seq<BusyInterval>)
    requires date <= dateTo && Max(l.start, dayStart(date)) < Min(l.end, dayStart(date + 1))
    ensures var start, end := Max(l.start, dayStart(date)), Min(l.end, dayStart(date + 1));
            grown + LessonBusy(off, dayStart, date, dateTo, l)
            == (grown + Entries(off, date, Segments(off, start, end))) + LessonBusy(off, dayStart, date + 1, dateTo, l)
  {
  }

  method AppendLesson(off: int -> int, dayStart: int -> int, first: int, dateTo: int, l: Window,
                      busy: seq<BusyInterval>)
    returns (grown: seq<BusyInterval>)
    ensures grown == busy + LessonBusy(off, dayStart, first, dateTo, l)
  {
    grown := busy;
    var date := first;
    while date <= dateTo
      invariant grown + LessonBusy(off, dayStart, date, dateTo, l) == busy + LessonBusy(off, dayStart, first, dateTo, l)
      decreases dateTo - date
    {
      var start, end := Max(l.start, dayStart(date)), Min(l.end, dayStart(date + 1));
      if start >= end {
        break;
      }
      LessonBusyUnfold(off, dayStart, date, dateTo, l, grown);
      grown := AppendBusyOnPolishDay(off, grown, date, start, end);
      date := date + 1;
    }
  }

  predicate InDay(dayStart: int -> int, d: int, t: int) {
    dayStart(d) <= t < dayStart(d + 1)
  }

  /** `dayStart(d)` is the first instant of day `d`, days follow each other, and within a day
      no offset comes back. */
  ghost predicate Calendar(off: int -> int, dayStart: int -> int) {
    && MinuteOffsets(off)
    && (forall a, b | a < b :: dayStart(a) < dayStart(b))
    && (forall d: int :: Aligned(dayStart(d)) && NoReturn(off, dayStart(d), dayStart(d + 1)))
    && (forall t, d :: InDay(dayStart, d, t) <==> LocalDay(off, t) == d)
  }

  /** Some instant of the lesson on that day shows a minute of the slot. */
  ghost predicate BusyOn(off: int -> int, l: Window, date: int, slot: Window) {
    exists t :: l.start <= t < l.end && LocalDay(off, t) == date && InSlot(off, t, slot)
  }

  lemma EntriesOfDate(off: int -> int, date: int, segments: seq<Window>)
    ensures forall x | x in Entries(off, date, segments) :: x.date == date
  {
  }

  lemma BlockedConcat(a: seq<BusyInterval>, b: seq<BusyInterval>, date: int, slot: Window)
    ensures Blocked(a + b, date, slot) <==> Blocked(a, date, slot) || Blocked(b, date, slot)
  {
    assert forall y :: y in a + b <==> y in a || y in b;
  }

  /** The part of a lesson on one day. */
  lemma ClippedDay(off: int -> int, dayStart: int -> int, date: int, l: Window, slot: Window)
    requires Calendar(off, dayStart) && slot.start < slot.end && Aligned(l.start) && Aligned(l.end)
    ensures var start, end := Max(l.start, dayStart(date)), Min(l.end, dayStart(date + 1));
            Blocked(Entries(off, date, Segments(off, start, end)), date, slot) <==> BusyOn(off, l, date, slot)
  {
    var start, end := Max(l.start, dayStart(date)), Min(l.end, dayStart(date + 1));
    assert NoReturn(off, dayStart(date), dayStart(date + 1));
    forall t | start <= t < end ensures LocalDay(off, t) == date {
      assert InDay(dayStart, date, t);
    }
    forall t | l.start <= t < l.end && LocalDay(off, t) == date ensures start <= t < end {
      assert InDay(dayStart, date, t);
    }
    DayIsBlockedExactly(off, date, start, end, slot);
  }

  /** Local dates follow the instants. */
  lemma DatesFollow(off: int -> int, dayStart: int -> int, t: int, u: int)
    requires Calendar(off, dayStart) && t <= u
    ensures LocalDay(off, t) <= LocalDay(off, u)
  {
    var d, e := LocalDay(off, t), LocalDay(off, u);
    assert InDay(dayStart, d, t) && InDay(dayStart, e, u);
    assert e + 1 < d ==> dayStart(e + 1) < dayStart(d);
  }

  /** Once a day is empty of the lesson, so are all later days. */
  lemma NothingLater(off: int -> int, dayStart: int -> int, date: int, l: Window, day: int, slot: Window)
    requires Calendar(off, dayStart) && l.start < dayStart(date + 1) && date <= day
    requires Max(l.start, dayStart(date)) >= Min(l.end, dayStart(date + 1))
    ensures !BusyOn(off, l, day, slot)
  {
    assert dayStart(date) < dayStart(date + 1);
    forall t | l.start <= t < l.end ensures LocalDay(off, t) < date {
      assert t < dayStart(date);
      DatesFollow(off, dayStart, t, dayStart(date));
      assert InDay(dayStart, date, dayStart(date)) && InDay(dayStart, LocalDay(off, t), t);
    }
  }

  lemma {:induction false} LessonBlocksExactly(off: int -> int, dayStart: int -> int, date: int, dateTo: int, l: Window,
                                               day: int, slot: Window)
    requires Calendar(off, dayStart) && slot.start < slot.end && Aligned(l.start) && Aligned(l.end)
    requires l.start < dayStart(date + 1) && day <= dateTo
    ensures Blocked(LessonBusy(off, dayStart, date, dateTo, l), day, slot) <==> date <= day && BusyOn(off, l, day, slot)
    decreases dateTo - date
  {
    if date <= dateTo {
      var start, end := Max(l.start, dayStart(date)), Min(l.end, dayStart(date + 1));
      if start >= end {
        if date <= day {
          NothingLater(off, dayStart, date, l, day, slot);
        }
      } else {
        var here, rest := Entries(off, date, Segments(off, start, end)), LessonBusy(off, dayStart, date + 1, dateTo, l);
        assert dayStart(date + 1) < dayStart(date + 2);
        LessonBlocksExactly(off, dayStart, date + 1, dateTo, l, day, slot);
        BlockedConcat(here, rest, day, slot);
        EntriesOfDate(off, date, Segments(off, start, end));
        if day == date {
          ClippedDay(off, dayStart, date, l, slot);
        }
      }
    }
  }

  /** No instant of the lesson in the range lies before the first day of the loop. */
  lemma LessonFromFirstDate(off: int -> int, dayStart: int -> int, dateFrom: int, l: Window, day: int, slot: Window)
    requires Calendar(off, dayStart) && dateFrom <= day
    ensures l.start < dayStart(FirstDate(off, dayStart, dateFrom, l) + 1)
    ensures BusyOn(off, l, day, slot) ==> FirstDate(off, dayStart, dateFrom, l) <= day
  {
    var clipped := Max(l.start, dayStart(dateFrom));
    var date := FirstDate(off, dayStart, dateFrom, l);
    assert InDay(dayStart, date, clipped);
    forall t | l.start <= t < l.end && LocalDay(off, t) == day ensures date <= day {
      assert InDay(dayStart, day, t);
      assert dateFrom == day || dayStart(dateFrom) < dayStart(day);
      DatesFollow(off, dayStart, clipped, t);
    }
  }

  lemma LessonIsBlockedExactly(off: int -> int, dayStart: int -> int, dateFrom: int, dateTo: int, l: Window,
                               day: int, slot: Window)
    requires Calendar(off, dayStart) && slot.start < slot.end && dateFrom <= day <= dateTo
    requires Aligned(l.start) && Aligned(l.end)
    ensures Blocked(LessonBusy(off, dayStart, FirstDate(off, dayStart, dateFrom, l), dateTo, l), day, slot)
       <==> BusyOn(off, l, day, slot)
  {
    LessonFromFirstDate(off, dayStart, dateFrom, l, day, slot);
    LessonBlocksExactly(off, dayStart, FirstDate(off, dayStart, dateFrom, l), dateTo, l, day, slot);
  }

  ghost predicate SomeBusyOn(off: int -> int, lessons: seq<Window>, day: int, slot: Window) {
    exists l :: l in lessons && BusyOn(off, l, day, slot)
  }

  lemma SomeBusyOnLast(off: int -> int, lessons: seq<Window>, day: int, slot: Window)
    requires lessons != []
    ensures SomeBusyOn(off, lessons, day, slot) <==>
            SomeBusyOn(off, lessons[..|lessons| - 1], day, slot) || BusyOn(off, lessons[|lessons| - 1], day, slot)
  {
    assert forall x :: x in lessons <==> x in lessons[..|lessons| - 1] || x == lessons[|lessons| - 1];
  }

  /** Over the whole requested range, a slot is blocked exactly when, at some instant of one
      of the student's lessons, the local date is the slot's and the clock shows one of its minutes. */
  lemma {:induction false} SlotsAreBlockedExactly(off: int -> int, dayStart: int -> int, dateFrom: int, dateTo: int,
                                                  lessons: seq<Window>, day: int, slot: Window)
    requires Calendar(off, dayStart) && slot.start < slot.end && dateFrom <= day <= dateTo
    requires forall l | l in lessons :: Aligned(l.start) && Aligned(l.end)
    ensures Blocked(AllBusy(off, dayStart, dateFrom, dateTo, lessons), day, slot) <==>
            SomeBusyOn(off, lessons, day, slot)
  {
    if lessons != [] {
      var n := |lessons| - 1;
      var before, l := AllBusy(off, dayStart, dateFrom, dateTo, lessons[..n]), lessons[n];
      SlotsAreBlockedExactly(off, dayStart, dateFrom, dateTo, lessons[..n], day, slot);
      LessonIsBlockedExactly(off, dayStart, dateFrom, dateTo, l, day, slot);
      BlockedConcat(before, LessonBusy(off, dayStart, FirstDate(off, dayStart, dateFrom, l), dateTo, l), day, slot);
      SomeBusyOnLast(off, lessons, day, slot);
    }
  }
}
