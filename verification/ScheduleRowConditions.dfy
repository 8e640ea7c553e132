/** The conditions on the two rows of an event write, the one read and the one in place, are
    the weakest ones: where they fail, some schedule with that row is broken by the write. */
module ScheduleRowConditions {
  import opened Chronology
  import opened TimeWindows
  import opened Schedule
  import opened ScheduleSafety
  import opened ScheduleEvents

  // ---------------------------------------------------------------- blocking lessons

  lemma {:induction false} IdAbove(ids: set<Id>) returns (b: Id)
    ensures forall x | x in ids :: x < b
  {
    if ids == {} {
      b := 0;
    } else {
      var x :| x in ids;
      b := IdAbove(ids - {x});
      b := if x < b then b else x + 1;
      assert forall y | y in ids :: y == x || y in ids - {x};
    }
  }

  /** A part of `a` that `b` does not reach. */
  function Gap(a: Window, b: Window): (g: Window)
    requires a.start < a.end && !Inside(a, b)
    ensures g.start < g.end && Inside(g, a) && !Overlaps(g, b) && !Overlaps(b, g)
  {
    if a.start < b.start then Window(a.start, Min(a.end, b.start)) else Window(Max(a.start, b.end), a.end)
  }

  function Blocker(student: Id, instructor: Id, vehicle: Option<Id>, span: Window): Lesson {
    Lesson(0, student, instructor, vehicle, true, span, Scheduled, false)
  }

  /** A schedule with one event and one lesson; every duration up to the event's is allowed. */
  function Beside(row: Event, l: Lesson, duration: int): Schedule {
    Schedule([l], [row], map[], map[], [], Some(Settings(0, duration, 0, duration, false, 0)))
  }

  lemma BesideIsFree(row: Event, l: Lesson, duration: int)
    requires forall r | LessonUses(l, r) && ActiveEvent(row) && EventUses(row, r) ::
               !Overlaps(l.span, row.span) && !Overlaps(row.span, l.span)
    ensures NoOverlap(Beside(row, l, duration))
  {
    var s := Beside(row, l, duration);
    forall j, k, r | j != k && Holds(s, j, r) && Holds(s, k, r) ensures !Overlaps(SpanOf(s, j), SpanOf(s, k)) {
      assert {j, k} == {LessonKey(0), EventKey(0)};
    }
  }

  // ---------------------------------------------------------------- edits

  /** The edit never breaks a schedule that has this row in place. */
  ghost predicate EditNeverBreaks(row: Event, seen: Event, p: EventPatch) {
    forall s, i: nat | NoOverlap(s) && i < |s.events| && s.events[i] == row && UpdateEvent(s, i, seen, p).Ok? ::
      NoOverlap(UpdateEvent(s, i, seen, p).value)
  }

  /** The rules on the fields of the edit itself. */
  predicate EditPossible(row: Event, seen: Event, p: EventPatch) {
    var m := Merged(seen, p);
    && seen.active && m.span.start < m.span.end && (m.kind == Drive ==> m.vehicle.Some?)
    && (m.capacity.Some? ==> |row.participants| <= m.capacity.value)
  }

  /** The lesson that the edit runs into when the row in place no longer holds the window. */
  function EditBlocker(row: Event, seen: Event, p: EventPatch, stranger: Id): Lesson
    requires EditPossible(row, seen, p) && !EditRowsAllow(row, seen, p)
  {
    var m := Merged(seen, p);
    if row.status == EventCancelled || row.instructor != seen.instructor then
      Blocker(stranger, m.instructor, None, m.span)
    else if !Inside(seen.span, row.span) then
      Blocker(stranger, m.instructor, None, Gap(m.span, row.span))
    else
      Blocker(stranger, row.instructor + m.instructor + 1, m.vehicle, m.span)
  }

  lemma EditBreaks(row: Event, seen: Event, p: EventPatch)
    requires EditPossible(row, seen, p) && !EditRowsAllow(row, seen, p)
    ensures !EditNeverBreaks(row, seen, p)
  {
    var m := Merged(seen, p);
    var stranger := IdAbove(row.participants);
    var l := EditBlocker(row, seen, p, stranger);
    var s := Beside(row, l, m.span.end - m.span.start);
    BesideIsFree(row, l, m.span.end - m.span.start);
    EditAccepted(row, seen, p, l);
    EditIsSafeExactly(s, 0, seen, p);
    BlockerInTheWay(row, seen, p, l, s);
  }

  lemma EditAccepted(row: Event, seen: Event, p: EventPatch, l: Lesson)
    requires EditPossible(row, seen, p) && !Timed(seen, Merged(seen, p))
    requires VehicleChecked(seen, Merged(seen, p)) ==> l.vehicle.None?
    ensures UpdateEvent(Beside(row, l, Merged(seen, p).span.end - Merged(seen, p).span.start), 0, seen, p).Ok?
  {
    var m := Merged(seen, p);
    var s := Beside(row, l, m.span.end - m.span.start);
    assert m.kind == Drive && VehicleChecked(seen, m) ==> !VehicleTaken(s, m.vehicle.value, m.span, None, Some(0));
  }

  lemma BlockerInTheWay(row: Event, seen: Event, p: EventPatch, l: Lesson, s: Schedule)
    requires EditPossible(row, seen, p) && !EditRowsAllow(row, seen, p)
    requires exists x: Id :: l == EditBlocker(row, seen, p, x)
    requires s == Beside(row, l, Merged(seen, p).span.end - Merged(seen, p).span.start)
    ensures !SkippedFree(s, 0, seen, p)
  {
    var m := Merged(seen, p);
    assert Holds(s, LessonKey(0), Instructor(l.instructor));
    assert l.vehicle.Some? ==> Holds(s, LessonKey(0), Vehicle(l.vehicle.value));
    assert Overlaps(SpanOf(s, LessonKey(0)), m.span);
    if l.instructor == m.instructor {
      assert !FreeBeside(s, 0, Instructor(m.instructor), m.span);
    } else {
      assert !FreeBeside(s, 0, Vehicle(m.vehicle.value), m.span);
    }
  }

  /** An edit never breaks any schedule exactly when it runs every check, leaves nothing
      active, or finds the row in place as it takes for granted: not cancelled, of the same
      instructor, around the same window and, for an unchecked vehicle, with that vehicle. */
  lemma EditRowsAreExact(row: Event, seen: Event, p: EventPatch)
    requires EditPossible(row, seen, p)
    ensures EditNeverBreaks(row, seen, p) <==> EditRowsAllow(row, seen, p)
  {
    if EditRowsAllow(row, seen, p) {
      forall s, i: nat | NoOverlap(s) && i < |s.events| && s.events[i] == row && UpdateEvent(s, i, seen, p).Ok?
        ensures NoOverlap(UpdateEvent(s, i, seen, p).value)
      {
        EditRowsSuffice(s, i, seen, p);
        EditIsSafeExactly(s, i, seen, p);
      }
    } else {
      EditBreaks(row, seen, p);
    }
  }

  // ---------------------------------------------------------------- participants

  ghost predicate AssignNeverBreaks(row: Event, seen: Event) {
    forall s, i: nat, students | NoOverlap(s) && i < |s.events| && s.events[i] == row
                                 && AssignStudents(s, i, seen, students).Ok? ::
      NoOverlap(AssignStudents(s, i, seen, students).value)
  }

  ghost predicate ReplaceNeverBreaks(row: Event, seen: Event) {
    forall s, i: nat, students | NoOverlap(s) && i < |s.events| && s.events[i] == row
                                 && ReplaceStudents(s, i, seen, students).Ok? ::
      NoOverlap(ReplaceStudents(s, i, seen, students).value)
  }

  /** A student who is busy in the part of the window that was not checked. */
  lemma BusyStudent(row: Event, seen: Event) returns (s: Schedule, x: Id)
    requires ActiveEvent(row) && row.span.start < row.span.end && !Inside(row.span, seen.span)
    ensures NoOverlap(s) && s.events == [row] && x !in row.participants
    ensures StudentsFree(s, 0, {x}, seen.span) && !StudentsFree(s, 0, {x}, row.span)
  {
    x := IdAbove(row.participants);
    var l := Blocker(x, row.instructor + 1, None, Gap(row.span, seen.span));
    s := Beside(row, l, 0);
    BesideIsFree(row, l, 0);
    assert forall k, r | k != EventKey(0) && Holds(s, k, r) :: k == LessonKey(0);
    assert Holds(s, LessonKey(0), Student(x)) && Overlaps(SpanOf(s, LessonKey(0)), row.span);
    assert !FreeBeside(s, 0, Student(x), row.span) && FreeBeside(s, 0, Student(x), seen.span);
  }

  lemma AssignBreaks(row: Event, seen: Event)
    requires seen.active && seen.kind == Theory && row.span.start < row.span.end
    requires seen.capacity.Some? ==> |row.participants| < seen.capacity.value
    requires !WindowRowsAllow(row, seen)
    ensures !AssignNeverBreaks(row, seen)
  {
    var s, x := BusyStudent(row, seen);
    OneAssigned(s, row, seen, x);
    AssignmentIsSafeExactly(s, 0, seen, [x]);
    assert ToSet([x]) - row.participants == {x};
  }

  lemma OneAssigned(s: Schedule, row: Event, seen: Event, x: Id)
    requires s.events == [row] && x !in row.participants && StudentsFree(s, 0, {x}, seen.span)
    requires seen.active && seen.kind == Theory
    requires seen.capacity.Some? ==> |row.participants| < seen.capacity.value
    ensures AssignStudents(s, 0, seen, [x]).Ok?
  {
    assert ToSet([x]) == {x} && {x} - row.participants == {x};
    assert |row.participants + {x}| == |row.participants| + 1;
    AssignIsExact(s, 0, seen, [x]);
  }

  /** Assigning never breaks any schedule exactly when the row in place is not active or still
      lies inside the window that was read and checked. */
  lemma AssignRowsAreExact(row: Event, seen: Event)
    requires seen.active && seen.kind == Theory && row.span.start < row.span.end
    requires seen.capacity.Some? ==> |row.participants| < seen.capacity.value
    ensures AssignNeverBreaks(row, seen) <==> WindowRowsAllow(row, seen)
  {
    if WindowRowsAllow(row, seen) {
      forall s, i: nat, students | NoOverlap(s) && i < |s.events| && s.events[i] == row
                                   && AssignStudents(s, i, seen, students).Ok?
        ensures NoOverlap(AssignStudents(s, i, seen, students).value)
      {
        RowsSuffice(s, OpAssign(i, seen, students));
        AssignmentIsSafeExactly(s, i, seen, students);
      }
    } else {
      AssignBreaks(row, seen);
    }
  }

  /** Replacing, likewise. */
  lemma ReplaceRowsAreExact(row: Event, seen: Event)
    requires seen.active && seen.kind == Theory && row.span.start < row.span.end
    requires seen.capacity.Some? ==> 1 <= seen.capacity.value
    ensures ReplaceNeverBreaks(row, seen) <==> WindowRowsAllow(row, seen)
  {
    if WindowRowsAllow(row, seen) {
      forall s, i: nat, students | NoOverlap(s) && i < |s.events| && s.events[i] == row
                                   && ReplaceStudents(s, i, seen, students).Ok?
        ensures NoOverlap(ReplaceStudents(s, i, seen, students).value)
      {
        RowsSuffice(s, OpReplace(i, seen, students));
        ReplacementIsSafeExactly(s, i, seen, students);
      }
    } else {
      var s, x := BusyStudent(row, seen);
      assert ToSet([x]) == {x} && {x} - row.participants == {x};
      ReplaceIsExact(s, 0, seen, [x]);
      ReplacementIsSafeExactly(s, 0, seen, [x]);
    }
  }

  // ---------------------------------------------------------------- capacity

  ghost predicate AssignNeverOverfills(row: Event, seen: Event) {
    forall s, i: nat, students | WithinCapacity(s) && i < |s.events| && s.events[i] == row
                                 && AssignStudents(s, i, seen, students).Ok? ::
      WithinCapacity(AssignStudents(s, i, seen, students).value)
  }

  ghost predicate ReplaceNeverOverfills(row: Event, seen: Event) {
    forall s, i: nat, students | WithinCapacity(s) && i < |s.events| && s.events[i] == row
                                 && ReplaceStudents(s, i, seen, students).Ok? ::
      WithinCapacity(ReplaceStudents(s, i, seen, students).value)
  }

  function Alone(row: Event): Schedule {
    Schedule([], [row], map[], map[], [], None)
  }

  lemma NobodyElse(row: Event, students: set<Id>, span: Window)
    ensures StudentsFree(Alone(row), 0, students, span)
  {
    assert forall k, r | Holds(Alone(row), k, r) :: k == EventKey(0);
  }

  /** Students nobody has seen before. */
  function Newcomers(first: Id, n: nat): (r: seq<Id>)
    ensures |r| == n && Distinct(r) && forall x | x in r :: x >= first
  {
    seq(n, j requires 0 <= j < n => first + j)
  }

  /** Assigning never exceeds the capacity in place exactly when the capacity read is no larger. */
  lemma AssignPlacesAreExact(row: Event, seen: Event)
    requires seen.active && seen.kind == Theory
    requires row.capacity.Some? ==> |row.participants| <= row.capacity.value
    ensures AssignNeverOverfills(row, seen) <==> CapacityRowsAllow(row, seen)
  {
    if CapacityRowsAllow(row, seen) {
      forall s, i: nat, students | WithinCapacity(s) && i < |s.events| && s.events[i] == row
                                   && AssignStudents(s, i, seen, students).Ok?
        ensures WithinCapacity(AssignStudents(s, i, seen, students).value)
      {
        PlacesSuffice(s, OpAssign(i, seen, students));
        WriteKeepsCapacityExactly(s, OpAssign(i, seen, students));
      }
    } else {
      var s, n := Alone(row), row.capacity.value - |row.participants| + 1;
      var b := IdAbove(row.participants);
      var students := Newcomers(b, n);
      DistinctSize(students);
      assert row.participants !! ToSet(students);
      assert |row.participants + ToSet(students)| == |row.participants| + n;
      NobodyElse(row, ToSet(students) - row.participants, seen.span);
      AssignIsExact(s, 0, seen, students);
      WriteKeepsCapacityExactly(s, OpAssign(0, seen, students));
    }
  }

  lemma ReplacePlacesAreExact(row: Event, seen: Event)
    requires seen.active && seen.kind == Theory
    requires row.capacity.Some? ==> |row.participants| <= row.capacity.value
    ensures ReplaceNeverOverfills(row, seen) <==> CapacityRowsAllow(row, seen)
  {
    if CapacityRowsAllow(row, seen) {
      forall s, i: nat, students | WithinCapacity(s) && i < |s.events| && s.events[i] == row
                                   && ReplaceStudents(s, i, seen, students).Ok?
        ensures WithinCapacity(ReplaceStudents(s, i, seen, students).value)
      {
        PlacesSuffice(s, OpReplace(i, seen, students));
        WriteKeepsCapacityExactly(s, OpReplace(i, seen, students));
      }
    } else {
      var s, students := Alone(row), Newcomers(0, row.capacity.value + 1);
      NobodyElse(row, ToSet(students), seen.span);
      ReplaceIsExact(s, 0, seen, students);
      WriteKeepsCapacityExactly(s, OpReplace(0, seen, students));
    }
  }
}
