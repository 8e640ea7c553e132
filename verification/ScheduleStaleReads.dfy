/** What an event write can do wrong: runs in which a status put back, or a row that was read
    before the transaction and has changed since, breaks the schedule. */
module ScheduleStaleReads {
  import opened Chronology
  import opened TimeWindows
  import opened Schedule
  import opened ScheduleSafety
  import opened ScheduleHours
  import opened ScheduleEvents

  // ---------------------------------------------------------------- a small school

  /** From one to two and from three to four o'clock on day 0. */
  function First(): Window { At(0, Window(60, 120)) }
  function Second(): Window { At(0, Window(180, 240)) }

  function Hours(): map<(Id, int), Window> {
    map[(7, 0) := Window(0, 1380), (8, 0) := Window(0, 1380)]
  }

  function School(): Schedule {
    Schedule([], [], map[0 := Course(Practical, 10, 0, true, false)], Hours(), [], None)
  }

  /** A theory event of instructor 7. */
  function Meeting(span: Window, capacity: nat, status: EventStatus, participants: set<Id>): Event {
    Event(7, None, Theory, span, None, Some(capacity), true, status, participants)
  }

  function Ride(instructor: Id, span: Window): Lesson {
    Lesson(0, 3, instructor, Some(1), true, span, Scheduled, false)
  }

  function OpenSchool(): seq<Op> {
    [OpSettings(Hours(), [], None), OpNewCourse(0, Course(Practical, 10, 0, true, false)),
     OpCreateEvent(7, None, Theory, First(), None, Some(10))]
  }

  lemma RunAppend(ops: seq<Op>, op: Op)
    ensures Run(ops + [op]) == After(Run(ops), op)
  {
    assert (ops + [op])[..|ops|] == ops;
  }

  /** Nothing stands in the way of an instructor without rows. */
  lemma HoursFree(s: Schedule, instructor: Id, r: Window, exceptEvent: Option<nat>, exceptLesson: Option<nat>)
    requires s.hours == Hours() && (instructor == 7 || instructor == 8)
    requires r == Window(60, 120) || r == Window(180, 240)
    requires InstructorRows(s, instructor, exceptEvent, exceptLesson) == []
    ensures HoursError(s, instructor, At(0, r), exceptEvent, exceptLesson).None?
  {
    ClockReads(0, r.start);
    ClockReads(0, r.end);
    HoursCheckIsExact(s, instructor, At(0, r), exceptEvent, exceptLesson);
  }

  lemma MeetingCreated()
    ensures After(School(), OpCreateEvent(7, None, Theory, First(), None, Some(10)))
         == School().(events := [Meeting(First(), 10, Planned, {})])
  {
    var s := School();
    HoursFree(s, 7, Window(60, 120), None, None);
    assert EventWindowError(s, 7, First(), None, {}).None?;
  }

  lemma SchoolOpens()
    ensures Run(OpenSchool()) == School().(events := [Meeting(First(), 10, Planned, {})])
  {
    var ops := OpenSchool();
    var first, second := [ops[0]], [ops[0], ops[1]];
    assert ops == second + [ops[2]] && second == first + [ops[1]] && first == [] + [ops[0]];
    RunAppend([], ops[0]);
    RunAppend(first, ops[1]);
    RunAppend(second, ops[2]);
    assert Empty().courses[0 := Course(Practical, 10, 0, true, false)] == School().courses;
    MeetingCreated();
  }

  /** A ride is booked beside a meeting that does not take the same instructor then. */
  lemma RideBooked(s: Schedule, e: Event, instructor: Id, r: Window)
    requires s == School().(events := [e]) && e.participants == {} && e.kind == Theory
    requires (r == Window(60, 120) || r == Window(180, 240)) && (instructor == 7 || instructor == 8)
    requires e.instructor != instructor || !ActiveEvent(e)
    ensures After(s, OpBook(0, 3, instructor, At(0, r), Named(1))) == s.(lessons := [Ride(instructor, At(0, r))])
  {
    RideWindow(s, e, instructor, r);
    assert BookingError(s, 0, 3, instructor, At(0, r), Named(1)).None?;
  }

  lemma RideWindow(s: Schedule, e: Event, instructor: Id, r: Window)
    requires s == School().(events := [e]) && e.participants == {} && e.kind == Theory
    requires (r == Window(60, 120) || r == Window(180, 240)) && (instructor == 7 || instructor == 8)
    requires e.instructor != instructor || !ActiveEvent(e)
    ensures LessonWindowError(s, 0, 3, instructor, At(0, r), None).None?
    ensures DurationAllowed(s.settings, false, At(0, r)) && !VehicleTaken(s, 1, At(0, r), None, None)
  {
    assert EventRows(s.events[..0], instructor, None) == [];
    HoursFree(s, instructor, r, None, None);
    assert BookedMinutes(s.lessons, 0, 3, None) == 0;
  }

  lemma TwoAtOnce(s: Schedule, r: Resource)
    requires |s.lessons| > 0 && |s.events| > 0 && Holds(s, LessonKey(0), r) && Holds(s, EventKey(0), r)
    requires s.lessons[0].span == s.events[0].span && s.lessons[0].span.start < s.lessons[0].span.end
    ensures !NoOverlap(s)
  {
    assert Overlaps(SpanOf(s, LessonKey(0)), SpanOf(s, EventKey(0)));
  }

  /** The row an event request of the run read: the one of event 0 after the first `n` writes. */
  function ReadAfter(ops: seq<Op>, n: nat): Event
    requires n <= |ops| && |Run(ops[..n]).events| > 0
  {
    Run(ops[..n]).events[0]
  }

  // ---------------------------------------------------------------- runs that break

  function CancelledAndBooked(): seq<Op> {
    OpenSchool() + [OpSetStatus({0}, EventCancelled)] + [OpBook(0, 3, 7, First(), Named(1))]
  }

  lemma AfterCancelledAndBooked()
    ensures Run(CancelledAndBooked())
         == School().(events := [Meeting(First(), 10, EventCancelled, {})], lessons := [Ride(7, First())])
  {
    var first := OpenSchool();
    var s := School().(events := [Meeting(First(), 10, EventCancelled, {})]);
    SchoolOpens();
    RunAppend(first, OpSetStatus({0}, EventCancelled));
    RunAppend(first + [OpSetStatus({0}, EventCancelled)], OpBook(0, 3, 7, First(), Named(1)));
    assert Run(first + [OpSetStatus({0}, EventCancelled)]) == s;
    RideBooked(s, s.events[0], 7, Window(60, 120));
  }

  lemma BookedIsFree()
    ensures NoOverlap(Run(CancelledAndBooked()))
  {
    AfterCancelledAndBooked();
    var s := Run(CancelledAndBooked());
    assert forall k, r | Holds(s, k, r) :: k == LessonKey(0);
  }

  /** A meeting is cancelled, its hour booked, and the meeting put back by status alone. */
  lemma ReactivationCanOverlap()
    ensures NoOverlap(Run(CancelledAndBooked()))
    ensures !NoOverlap(Run(CancelledAndBooked() + [OpSetStatus({0}, Planned)]))
  {
    var ops := CancelledAndBooked();
    AfterCancelledAndBooked();
    BookedIsFree();
    RunAppend(ops, OpSetStatus({0}, Planned));
    TwoAtOnce(Run(ops + [OpSetStatus({0}, Planned)]), Instructor(7));
  }

  function CapacityPatch(capacity: nat): EventPatch {
    EventPatch(None, None, None, None, None, Keep, Set(Some(capacity)))
  }

  /** The edit that changes only the capacity, from the meeting as it was before it was cancelled. */
  function StaleEdit(): Op {
    OpUpdateEvent(0, Meeting(First(), 10, Planned, {}), CapacityPatch(5))
  }

  /** The same with nobody changing a status back: a patch of the capacity reads the meeting,
      the meeting is cancelled and its hour booked, and the patch then writes the old status. */
  lemma StaleEditCanOverlap()
    ensures |Run(CancelledAndBooked()[..3]).events| > 0 && StaleEdit().seen == ReadAfter(CancelledAndBooked(), 3)
    ensures NoOverlap(Run(CancelledAndBooked())) && !NoOverlap(Run(CancelledAndBooked() + [StaleEdit()]))
  {
    var ops := CancelledAndBooked();
    SchoolOpens();
    assert ops[..3] == OpenSchool();
    AfterCancelledAndBooked();
    BookedIsFree();
    RunAppend(ops, StaleEdit());
    TwoAtOnce(Run(ops + [StaleEdit()]), Instructor(7));
  }

  function MovePatch(): EventPatch {
    EventPatch(None, None, None, Some(Second().start), Some(Second().end), Keep, Keep)
  }

  function MovedAndBooked(): seq<Op> {
    OpenSchool() + [OpUpdateEvent(0, Meeting(First(), 10, Planned, {}), MovePatch())]
    + [OpBook(0, 3, 8, Second(), Named(1))]
  }

  lemma MeetingMoved(s: Schedule)
    requires s == School().(events := [Meeting(First(), 10, Planned, {})])
    ensures After(s, OpUpdateEvent(0, s.events[0], MovePatch()))
         == School().(events := [Meeting(Second(), 10, Planned, {})])
  {
    var e := s.events[0];
    var m := Merged(e, MovePatch());
    assert m.span == Second();
    assert EventRows(s.events[..0], 7, Some(0)) == [];
    HoursFree(s, 7, Window(180, 240), Some(0), None);
    assert EventWindowError(s, 7, Second(), Some(0), {}).None?;
    assert EventChangeError(s, 0, e, m, false).None?;
  }

  lemma AfterMovedAndBooked()
    ensures Run(MovedAndBooked())
         == School().(events := [Meeting(Second(), 10, Planned, {})], lessons := [Ride(8, Second())])
  {
    var first, move := OpenSchool(), OpUpdateEvent(0, Meeting(First(), 10, Planned, {}), MovePatch());
    SchoolOpens();
    RunAppend(first, move);
    RunAppend(first + [move], OpBook(0, 3, 8, Second(), Named(1)));
    MeetingMoved(Run(first));
    var s := School().(events := [Meeting(Second(), 10, Planned, {})]);
    RideBooked(s, s.events[0], 8, Window(180, 240));
  }

  /** The assignment of student 3, from the meeting as it was before it was moved. */
  function StaleAssignment(): Op {
    OpAssign(0, Meeting(First(), 10, Planned, {}), [3])
  }

  /** An assignment reads the meeting, the meeting is moved and the student booked elsewhere
      in its new hour; the student is then checked against the old hour. */
  lemma StaleAssignmentCanOverlap()
    ensures |Run(MovedAndBooked()[..3]).events| > 0 && StaleAssignment().seen == ReadAfter(MovedAndBooked(), 3)
    ensures NoOverlap(Run(MovedAndBooked())) && !NoOverlap(Run(MovedAndBooked() + [StaleAssignment()]))
  {
    var ops := MovedAndBooked();
    SchoolOpens();
    assert ops[..3] == OpenSchool();
    AfterMovedAndBooked();
    var s := Run(ops);
    assert forall j, k, r | j != k && Holds(s, j, r) && Holds(s, k, r) :: !Overlaps(SpanOf(s, j), SpanOf(s, k));
    RunAppend(ops, StaleAssignment());
    StudentAssigned(s);
    TwoAtOnce(Run(ops + [StaleAssignment()]), Student(3));
  }

  lemma StudentAssigned(s: Schedule)
    requires s == School().(events := [Meeting(Second(), 10, Planned, {})], lessons := [Ride(8, Second())])
    ensures After(s, StaleAssignment()) == s.(events := [Meeting(Second(), 10, Planned, {3})])
  {
    assert ToSet([3]) - {} == {3};
    assert !Overlaps(Second(), First());
    assert !ParticipantTaken(s, Some(0), 3, First());
    assert {} + {3} == {3};
  }

  function Shrunk(): seq<Op> {
    OpenSchool() + [OpUpdateEvent(0, Meeting(First(), 10, Planned, {}), CapacityPatch(1))]
  }

  function StaleCrowd(): Op {
    OpAssign(0, Meeting(First(), 10, Planned, {}), [3, 4])
  }

  /** An assignment of two reads ten places, the places are cut to one, and both get in. */
  lemma StaleAssignmentCanExceedCapacity()
    ensures |Run(Shrunk()[..3]).events| > 0 && StaleCrowd().seen == ReadAfter(Shrunk(), 3)
    ensures WithinCapacity(Run(Shrunk())) && !WithinCapacity(Run(Shrunk() + [StaleCrowd()]))
  {
    var ops := Shrunk();
    SchoolOpens();
    assert ops[..3] == OpenSchool();
    RunAppend(OpenSchool(), OpUpdateEvent(0, Meeting(First(), 10, Planned, {}), CapacityPatch(1)));
    var s := School().(events := [Meeting(First(), 1, Planned, {})]);
    assert Run(ops) == s;
    RunAppend(ops, StaleCrowd());
    CrowdAssigned(s);
  }

  lemma CrowdAssigned(s: Schedule)
    requires s == School().(events := [Meeting(First(), 1, Planned, {})])
    ensures !WithinCapacity(After(s, StaleCrowd()))
  {
    assert ToSet([3, 4]) - {} == {3, 4} && |{3, 4}| == 2;
    assert forall p :: !ParticipantTaken(s, Some(0), p, First());
    assert After(s, StaleCrowd()).events[0].participants == {3, 4};
    assert After(s, StaleCrowd()).events[0].capacity == Some(1);
  }
}
