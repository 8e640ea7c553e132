/** Writes to events.  A request reads the event's row before its transaction opens, and the
    bulk status change checks no conflict, so a write can break what the checks protect: for
    every write the exact condition, and over every run. */
module ScheduleEvents {
  import opened Chronology
  import opened TimeWindows
  import opened Schedule
  import opened ScheduleSafety

  /** The event is free of every other commitment of the resource in the window. */
  ghost predicate FreeBeside(s: Schedule, i: nat, r: Resource, span: Window) {
    FreeFor(s, r, span, Some(EventKey(i)))
  }

  ghost predicate StudentsFree(s: Schedule, i: nat, students: set<Id>, span: Window) {
    forall p | p in students :: FreeBeside(s, i, Student(p), span)
  }

  /** Instructor and participants of the event are free in the window. */
  ghost predicate PeopleFree(s: Schedule, i: nat, instructor: Id, students: set<Id>, span: Window) {
    FreeBeside(s, i, Instructor(instructor), span) && StudentsFree(s, i, students, span)
  }

  lemma QueriesBeside(s: Schedule, i: nat, span: Window)
    ensures forall x :: FreeBeside(s, i, Instructor(x), span) <==>
              !InstructorHasLesson(s, x, span, None) && !InstructorHasEvent(s, x, span, Some(i))
    ensures forall x :: FreeBeside(s, i, Student(x), span) <==> !ParticipantTaken(s, Some(i), x, span)
    ensures forall x :: FreeBeside(s, i, Vehicle(x), span) <==> !VehicleTaken(s, x, span, None, Some(i))
  {
    EventQueries(s, i, span);
    forall r {
      QueriesAreExact(s, r, span, Some(EventKey(i)));
    }
  }

  /** An event put in place of row `i`. */
  lemma PlacedEventFits(s: Schedule, i: nat, e: Event)
    requires NoOverlap(s) && i < |s.events|
    ensures NoOverlap(WithEvent(s, i, e)) <==>
              (ActiveEvent(e) ==>
                 && PeopleFree(s, i, e.instructor, e.participants, e.span)
                 && (e.kind == Drive && e.vehicle.Some? ==> FreeBeside(s, i, Vehicle(e.vehicle.value), e.span)))
  {
    if ActiveEvent(e) {
      WithEventFits(s, i, e);
      forall r {
        QueriesAreExact(s, r, e.span, Some(EventKey(i)));
      }
    } else {
      PutEvent(s, i, e);
      WriteRow(s, WithEvent(s, i, e), EventKey(i));
    }
  }

  /** What the row in place holds is free beside it. */
  lemma OldRowFits(s: Schedule, i: nat)
    requires NoOverlap(s) && i < |s.events| && ActiveEvent(s.events[i])
    ensures var e := s.events[i];
            && PeopleFree(s, i, e.instructor, e.participants, e.span)
            && (e.kind == Drive && e.vehicle.Some? ==> FreeBeside(s, i, Vehicle(e.vehicle.value), e.span))
  {
    assert s.events[i := s.events[i]] == s.events;
    PlacedEventFits(s, i, s.events[i]);
  }

  /** Free in a window is free in any part of it. */
  lemma FreeInside(s: Schedule, i: nat, r: Resource, part: Window, span: Window)
    requires Inside(part, span) && FreeBeside(s, i, r, span)
    ensures FreeBeside(s, i, r, part)
  {
  }

  // ---------------------------------------------------------------- event edits

  /** The edit changes window or instructor of the event it read. */
  predicate Timed(seen: Event, m: Event) {
    m.span != seen.span || m.instructor != seen.instructor
  }

  predicate VehicleChecked(seen: Event, m: Event) {
    m.kind == Drive && (Timed(seen, m) || m.vehicle != seen.vehicle || m.kind != seen.kind)
  }

  /** What an edit needs besides free people and vehicles. */
  predicate EditRules(s: Schedule, i: nat, seen: Event, m: Event, kindGiven: bool)
    requires i < |s.events|
  {
    && seen.active && m.span.start < m.span.end && (m.kind == Drive ==> m.vehicle.Some?)
    && (m.span != seen.span || kindGiven ==> DurationAllowed(s.settings, m.kind == Theory, m.span))
    && (Timed(seen, m) ==> HoursError(s, m.instructor, m.span, Some(i), None).None?)
    && (m.capacity.Some? ==> |s.events[i].participants| <= m.capacity.value)
  }

  /** For any row read and any row in place: an edit is accepted exactly when the rules allow
      it and everybody it looks at is free; it then writes every merged column to the row in
      place and keeps the participants of that row. */
  lemma UpdateEventIsExact(s: Schedule, i: nat, seen: Event, p: EventPatch)
    requires i < |s.events|
    ensures var r, row, m := UpdateEvent(s, i, seen, p), s.events[i], Merged(seen, p);
            && (r.Ok? <==>
                  && EditRules(s, i, seen, m, p.kind.Some?)
                  && (Timed(seen, m) ==> PeopleFree(s, i, m.instructor, row.participants, m.span))
                  && (VehicleChecked(seen, m) ==> FreeBeside(s, i, Vehicle(m.vehicle.value), m.span)))
            && (r.Ok? ==> r.value == WithEvent(s, i, Written(row, m)))
  {
    QueriesBeside(s, i, Merged(seen, p).span);
  }

  /** The people and the vehicle an edit does not look at are free in the window it writes. */
  ghost predicate SkippedFree(s: Schedule, i: nat, seen: Event, p: EventPatch)
    requires i < |s.events|
  {
    var row, m := s.events[i], Merged(seen, p);
    ActiveEvent(Written(row, m)) ==>
      && (!Timed(seen, m) ==> PeopleFree(s, i, m.instructor, row.participants, m.span))
      && (m.kind == Drive && m.vehicle.Some? && !VehicleChecked(seen, m) ==>
            FreeBeside(s, i, Vehicle(m.vehicle.value), m.span))
  }

  /** An accepted edit keeps the schedule free of overlap exactly when everything it skipped
      is free, whatever happened to the row since it was read. */
  lemma EditIsSafeExactly(s: Schedule, i: nat, seen: Event, p: EventPatch)
    requires NoOverlap(s) && UpdateEvent(s, i, seen, p).Ok?
    ensures NoOverlap(UpdateEvent(s, i, seen, p).value) <==> SkippedFree(s, i, seen, p)
  {
    UpdateEventIsExact(s, i, seen, p);
    PlacedEventFits(s, i, Written(s.events[i], Merged(seen, p)));
  }

  /** The case of a cancelled event put back by an edit that touches neither window nor
      instructor nor vehicle, the row being as it was read. */
  lemma EditReactivationIsExact(s: Schedule, i: nat, p: EventPatch)
    requires NoOverlap(s) && i < |s.events| && UpdateEvent(s, i, s.events[i], p).Ok?
    requires s.events[i].status == EventCancelled && Merged(s.events[i], p).status != EventCancelled
    requires var e, m := s.events[i], Merged(s.events[i], p);
             m.span == e.span && m.instructor == e.instructor && m.kind == e.kind && m.vehicle == e.vehicle
    ensures NoOverlap(UpdateEvent(s, i, s.events[i], p).value) <==>
            forall r | EventUses(s.events[i], r) :: FreeBeside(s, i, r, s.events[i].span)
  {
    var e := s.events[i];
    EditIsSafeExactly(s, i, e, p);
    assert EventUses(e, Instructor(e.instructor));
    assert forall x | x in e.participants :: EventUses(e, Student(x));
    assert e.kind == Drive && e.vehicle.Some? ==> EventUses(e, Vehicle(e.vehicle.value));
  }

  // ---------------------------------------------------------------- participants

  /** Assigning succeeds exactly when the list has no duplicates, the event read was an active
      theory event with enough places, and every new student is free in the window read. */
  lemma AssignIsExact(s: Schedule, i: nat, seen: Event, students: seq<Id>)
    requires i < |s.events|
    ensures var r, row := AssignStudents(s, i, seen, students), s.events[i];
            var people := row.participants + ToSet(students);
            && (r.Ok? <==>
                  && Distinct(students) && seen.active && seen.kind == Theory
                  && (seen.capacity.Some? ==> |people| <= seen.capacity.value)
                  && StudentsFree(s, i, ToSet(students) - row.participants, seen.span))
            && (r.Ok? ==> r.value == WithEvent(s, i, row.(participants := people)))
  {
    var row := s.events[i];
    QueriesBeside(s, i, seen.span);
    assert row.participants + ToSet(students) == row.participants + (ToSet(students) - row.participants);
  }

  /** Replacing, likewise, with every named student free. */
  lemma ReplaceIsExact(s: Schedule, i: nat, seen: Event, students: seq<Id>)
    requires i < |s.events|
    ensures var r, row := ReplaceStudents(s, i, seen, students), s.events[i];
            && (r.Ok? <==>
                  && Distinct(students) && seen.active && seen.kind == Theory
                  && (seen.capacity.Some? ==> |students| <= seen.capacity.value)
                  && StudentsFree(s, i, ToSet(students), seen.span))
            && (r.Ok? ==> r.value == WithEvent(s, i, row.(participants := ToSet(students))))
  {
    QueriesBeside(s, i, seen.span);
  }

  /** New participants keep the schedule free of overlap exactly when they are free in the
      window of the row in place. */
  lemma ParticipantsAreSafeExactly(s: Schedule, i: nat, people: set<Id>)
    requires NoOverlap(s) && i < |s.events|
    ensures NoOverlap(WithEvent(s, i, s.events[i].(participants := people))) <==>
              (ActiveEvent(s.events[i]) ==> StudentsFree(s, i, people - s.events[i].participants, s.events[i].span))
  {
    var row := s.events[i];
    PlacedEventFits(s, i, row.(participants := people));
    if ActiveEvent(row) {
      OldRowFits(s, i);
      forall p | p in people ensures p in row.participants || p in people - row.participants {}
    }
  }

  // ---------------------------------------------------------------- bulk status

  predicate Reactivated(s: Schedule, ids: set<nat>, i: nat) {
    i < |s.events| && i in ids && s.events[i].active && s.events[i].status == EventCancelled
  }

  predicate ShareResource(a: Event, b: Event) {
    || a.instructor == b.instructor
    || (exists p :: p in a.participants && p in b.participants)
    || (a.kind == Drive && b.kind == Drive && a.vehicle.Some? && a.vehicle == b.vehicle)
  }

  /** Each event put back is free of all commitments, and of the others put back with it. */
  ghost predicate ReactivatedFit(s: Schedule, ids: set<nat>) {
    && (forall i: nat, r | Reactivated(s, ids, i) && EventUses(s.events[i], r) :: FreeFor(s, r, s.events[i].span, None))
    && forall i: nat, j: nat | Reactivated(s, ids, i) && Reactivated(s, ids, j) && i != j
                                && ShareResource(s.events[i], s.events[j]) ::
         !Overlaps(s.events[i].span, s.events[j].span)
  }

  lemma SharedMeans(a: Event, b: Event)
    ensures ShareResource(a, b) <==> exists r :: EventUses(a, r) && EventUses(b, r)
  {
    if a.instructor == b.instructor {
      assert EventUses(a, Instructor(a.instructor)) && EventUses(b, Instructor(a.instructor));
    }
    if p :| p in a.participants && p in b.participants {
      assert EventUses(a, Student(p)) && EventUses(b, Student(p));
    }
    if a.kind == Drive && b.kind == Drive && a.vehicle.Some? && a.vehicle == b.vehicle {
      assert EventUses(a, Vehicle(a.vehicle.value)) && EventUses(b, Vehicle(a.vehicle.value));
    }
  }

  lemma HoldsAfterStatus(s: Schedule, ids: set<nat>, status: EventStatus, k: Key, r: Resource)
    requires status != EventCancelled
    ensures var t := SetEventStatus(s, ids, status);
            && (Holds(t, k, r) <==>
                  Holds(s, k, r) || (k.EventKey? && Reactivated(s, ids, k.i) && EventUses(s.events[k.i], r)))
            && (HasKey(t, k) <==> HasKey(s, k)) && (HasKey(s, k) ==> SpanOf(t, k) == SpanOf(s, k))
  {
  }

  lemma ReactivationFits(s: Schedule, ids: set<nat>, status: EventStatus)
    requires NoOverlap(s) && status != EventCancelled && ReactivatedFit(s, ids)
    ensures NoOverlap(SetEventStatus(s, ids, status))
  {
    var t := SetEventStatus(s, ids, status);
    forall j, k, r | j != k && Holds(t, j, r) && Holds(t, k, r) ensures !Overlaps(SpanOf(t, j), SpanOf(t, k)) {
      HoldsAfterStatus(s, ids, status, j, r);
      HoldsAfterStatus(s, ids, status, k, r);
      if !Holds(s, j, r) && !Holds(s, k, r) {
        SharedMeans(s.events[j.i], s.events[k.i]);
      } else if !Holds(s, j, r) {
        assert FreeFor(s, r, SpanOf(s, j), None);
      } else if !Holds(s, k, r) {
        assert FreeFor(s, r, SpanOf(s, k), None);
      }
    }
  }

  lemma FitsAfterReactivation(s: Schedule, ids: set<nat>, status: EventStatus)
    requires status != EventCancelled && NoOverlap(SetEventStatus(s, ids, status))
    ensures ReactivatedFit(s, ids)
  {
    var t := SetEventStatus(s, ids, status);
    forall i: nat, r | Reactivated(s, ids, i) && EventUses(s.events[i], r)
      ensures FreeFor(s, r, s.events[i].span, None)
    {
      forall k | Holds(s, k, r) ensures !Overlaps(SpanOf(s, k), s.events[i].span) {
        HoldsAfterStatus(s, ids, status, k, r);
        HoldsAfterStatus(s, ids, status, EventKey(i), r);
        assert !Holds(s, EventKey(i), r);
      }
    }
    forall i: nat, j: nat | Reactivated(s, ids, i) && Reactivated(s, ids, j) && i != j
                            && ShareResource(s.events[i], s.events[j])
      ensures !Overlaps(s.events[i].span, s.events[j].span)
    {
      SharedMeans(s.events[i], s.events[j]);
      var r :| EventUses(s.events[i], r) && EventUses(s.events[j], r);
      HoldsAfterStatus(s, ids, status, EventKey(i), r);
      HoldsAfterStatus(s, ids, status, EventKey(j), r);
    }
  }

  /** A status given to many events at once keeps the schedule free of overlap exactly when it
      cancels, or every event put back fits among all others and those put back with it. */
  lemma ReactivationIsExact(s: Schedule, ids: set<nat>, status: EventStatus)
    requires NoOverlap(s)
    ensures NoOverlap(SetEventStatus(s, ids, status)) <==> status == EventCancelled || ReactivatedFit(s, ids)
  {
    if status == EventCancelled {
      Shrink(s, SetEventStatus(s, ids, status));
    } else if ReactivatedFit(s, ids) {
      ReactivationFits(s, ids, status);
    } else if NoOverlap(SetEventStatus(s, ids, status)) {
      FitsAfterReactivation(s, ids, status);
    }
  }

  // ---------------------------------------------------------------- every write, every run

  /** What a write needs, besides its own checks, to keep the schedule free of overlap. */
  ghost predicate Safe(s: Schedule, op: Op) {
    match op
    case OpUpdateEvent(i, seen, p) => UpdateEvent(s, i, seen, p).Ok? ==> SkippedFree(s, i, seen, p)
    case OpAssign(i, seen, students) =>
      AssignStudents(s, i, seen, students).Ok? && ActiveEvent(s.events[i]) ==>
        StudentsFree(s, i, ToSet(students) - s.events[i].participants, s.events[i].span)
    case OpReplace(i, seen, students) =>
      ReplaceStudents(s, i, seen, students).Ok? && ActiveEvent(s.events[i]) ==>
        StudentsFree(s, i, ToSet(students) - s.events[i].participants, s.events[i].span)
    case OpSetStatus(ids, status) => status == EventCancelled || ReactivatedFit(s, ids)
    case _ => true
  }

  lemma BookingKeeps(s: Schedule, course: Id, student: Id, instructor: Id, span: Window, choice: VehicleChoice)
    requires NoOverlap(s) && BookLesson(s, course, student, instructor, span, choice).Ok?
    ensures NoOverlap(BookLesson(s, course, student, instructor, span, choice).value)
  {
    match choice
    case Named(v) => BookingIsExact(s, course, student, instructor, span, v);
    case AnyOf(c, p, u, r) => SelfBookingIsExact(s, course, student, instructor, span, c, p, u, r);
  }

  lemma RemovalKeeps(s: Schedule, i: nat, seen: Event, student: Id)
    requires NoOverlap(s) && RemoveStudent(s, i, seen, student).Ok?
    ensures NoOverlap(RemoveStudent(s, i, seen, student).value)
  {
    ParticipantsAreSafeExactly(s, i, s.events[i].participants - {student});
  }

  /** Each write keeps the schedule free of overlap exactly when it is safe; bookings, lesson
      edits and cancellations, new and deleted events and removals always are. */
  lemma WriteKeepsNoOverlapExactly(s: Schedule, op: Op)
    requires NoOverlap(s)
    ensures NoOverlap(After(s, op)) <==> Safe(s, op)
  {
    if Apply(s, op).Ok? {
      match op
      case OpBook(course, student, instructor, span, choice) =>
        BookingKeeps(s, course, student, instructor, span, choice);
      case OpUpdateLesson(i, p, now) => UpdateLessonIsExact(s, i, p, now);
      case OpCreateEvent(instructor, course, kind, span, vehicle, capacity) =>
        CreateEventIsExact(s, instructor, course, kind, span, vehicle, capacity);
      case OpUpdateEvent(i, seen, p) => EditIsSafeExactly(s, i, seen, p);
      case OpAssign(i, seen, students) => AssignmentIsSafeExactly(s, i, seen, students);
      case OpReplace(i, seen, students) => ReplacementIsSafeExactly(s, i, seen, students);
      case OpRemove(i, seen, student) => RemovalKeeps(s, i, seen, student);
      case OpSetStatus(ids, status) => ReactivationIsExact(s, ids, status);
      case OpCancel(i, canceller, now) => Shrink(s, After(s, op));
      case OpDeleteEvent(i, seen) => Shrink(s, After(s, op));
      case OpPatchCourse(_, _, _) => Shrink(s, After(s, op));
      case OpNewCourse(_, _) => Shrink(s, After(s, op));
      case OpSettings(_, _, _) => Shrink(s, After(s, op));
    }
  }

  lemma AssignmentIsSafeExactly(s: Schedule, i: nat, seen: Event, students: seq<Id>)
    requires NoOverlap(s) && AssignStudents(s, i, seen, students).Ok?
    ensures NoOverlap(AssignStudents(s, i, seen, students).value) <==>
              (ActiveEvent(s.events[i]) ==>
                 StudentsFree(s, i, ToSet(students) - s.events[i].participants, s.events[i].span))
  {
    var people := s.events[i].participants + ToSet(students);
    AssignIsExact(s, i, seen, students);
    ParticipantsAreSafeExactly(s, i, people);
    assert people - s.events[i].participants == ToSet(students) - s.events[i].participants;
  }

  lemma ReplacementIsSafeExactly(s: Schedule, i: nat, seen: Event, students: seq<Id>)
    requires NoOverlap(s) && ReplaceStudents(s, i, seen, students).Ok?
    ensures NoOverlap(ReplaceStudents(s, i, seen, students).value) <==>
              (ActiveEvent(s.events[i]) ==>
                 StudentsFree(s, i, ToSet(students) - s.events[i].participants, s.events[i].span))
  {
    ReplaceIsExact(s, i, seen, students);
    ParticipantsAreSafeExactly(s, i, ToSet(students));
  }

  ghost predicate NeverOverlaps(ops: seq<Op>) {
    forall n | 0 <= n <= |ops| :: NoOverlap(Run(ops[..n]))
  }

  ghost predicate AlwaysSafe(ops: seq<Op>) {
    forall n | 0 <= n < |ops| :: Safe(Run(ops[..n]), ops[n])
  }

  lemma RunStep(ops: seq<Op>, n: nat)
    requires n < |ops|
    ensures Run(ops[..n + 1]) == After(Run(ops[..n]), ops[n])
  {
    assert ops[..n + 1][..n] == ops[..n];
  }

  /** No resource is ever held twice in a run exactly when every write of it is safe. */
  lemma RunsHaveNoOverlapExactly(ops: seq<Op>)
    ensures NeverOverlaps(ops) <==> AlwaysSafe(ops)
  {
    if NeverOverlaps(ops) {
      forall n | 0 <= n < |ops| ensures Safe(Run(ops[..n]), ops[n]) {
        RunStep(ops, n);
        assert NoOverlap(Run(ops[..n])) && NoOverlap(Run(ops[..n + 1]));
        WriteKeepsNoOverlapExactly(Run(ops[..n]), ops[n]);
      }
    }
    if AlwaysSafe(ops) {
      forall n | 0 <= n <= |ops| ensures NoOverlap(Run(ops[..n])) {
        SafePrefix(ops, n);
      }
    }
  }

  lemma {:induction false} SafePrefix(ops: seq<Op>, n: nat)
    requires AlwaysSafe(ops) && n <= |ops|
    ensures NoOverlap(Run(ops[..n]))
  {
    if n > 0 {
      SafePrefix(ops, n - 1);
      RunStep(ops, n - 1);
      assert Safe(Run(ops[..n - 1]), ops[n - 1]);
      WriteKeepsNoOverlapExactly(Run(ops[..n - 1]), ops[n - 1]);
    }
  }

  // ---------------------------------------------------------------- the rows alone

  /** The row in place still holds what the edit takes for granted. */
  predicate EditRowsAllow(row: Event, seen: Event, p: EventPatch) {
    var m := Merged(seen, p);
    || !row.active || m.status == EventCancelled || Timed(seen, m)
    || (&& row.status != EventCancelled && row.instructor == seen.instructor && Inside(seen.span, row.span)
        && (m.kind == Drive && !VehicleChecked(seen, m) ==> row.kind == Drive && row.vehicle == seen.vehicle))
  }

  /** The row in place has not moved out of the window that was checked. */
  predicate WindowRowsAllow(row: Event, seen: Event) {
    !ActiveEvent(row) || Inside(row.span, seen.span)
  }

  /** Safe by the rows of the events alone, whatever else is in the schedule. */
  predicate RowsAllow(s: Schedule, op: Op) {
    match op
    case OpUpdateEvent(i, seen, p) => i < |s.events| ==> EditRowsAllow(s.events[i], seen, p)
    case OpAssign(i, seen, _) => i < |s.events| ==> WindowRowsAllow(s.events[i], seen)
    case OpReplace(i, seen, _) => i < |s.events| ==> WindowRowsAllow(s.events[i], seen)
    case OpSetStatus(ids, status) =>
      status == EventCancelled || forall i | 0 <= i < |s.events| :: !Reactivated(s, ids, i)
    case _ => true
  }

  lemma EditRowsSuffice(s: Schedule, i: nat, seen: Event, p: EventPatch)
    requires NoOverlap(s) && UpdateEvent(s, i, seen, p).Ok? && EditRowsAllow(s.events[i], seen, p)
    ensures SkippedFree(s, i, seen, p)
  {
    var row, m := s.events[i], Merged(seen, p);
    if ActiveEvent(Written(row, m)) && !Timed(seen, m) {
      OldRowFits(s, i);
      FreeInside(s, i, Instructor(m.instructor), m.span, row.span);
      forall x | x in row.participants ensures FreeBeside(s, i, Student(x), m.span) {
        FreeInside(s, i, Student(x), m.span, row.span);
      }
      if m.kind == Drive && m.vehicle.Some? && !VehicleChecked(seen, m) {
        FreeInside(s, i, Vehicle(m.vehicle.value), m.span, row.span);
      }
    }
  }

  lemma WindowRowsSuffice(s: Schedule, i: nat, seen: Event, students: set<Id>)
    requires i < |s.events| && ActiveEvent(s.events[i]) && WindowRowsAllow(s.events[i], seen)
    requires StudentsFree(s, i, students, seen.span)
    ensures StudentsFree(s, i, students, s.events[i].span)
  {
    forall x | x in students ensures FreeBeside(s, i, Student(x), s.events[i].span) {
      FreeInside(s, i, Student(x), s.events[i].span, seen.span);
    }
  }

  lemma RowsSuffice(s: Schedule, op: Op)
    requires NoOverlap(s) && RowsAllow(s, op)
    ensures Safe(s, op)
  {
    match op
    case OpUpdateEvent(i, seen, p) =>
      if UpdateEvent(s, i, seen, p).Ok? {
        EditRowsSuffice(s, i, seen, p);
      }
    case OpAssign(i, seen, students) =>
      if AssignStudents(s, i, seen, students).Ok? && ActiveEvent(s.events[i]) {
        AssignIsExact(s, i, seen, students);
        WindowRowsSuffice(s, i, seen, ToSet(students) - s.events[i].participants);
      }
    case OpReplace(i, seen, students) =>
      if ReplaceStudents(s, i, seen, students).Ok? && ActiveEvent(s.events[i]) {
        ReplaceIsExact(s, i, seen, students);
        WindowRowsSuffice(s, i, seen, ToSet(students) - s.events[i].participants);
      }
    case _ =>
  }

  /** Over every run in which the rows allow each event write, no instructor, student or
      vehicle ever holds two overlapping active commitments. */
  lemma RunsHaveNoOverlap(ops: seq<Op>)
    requires forall n | 0 <= n < |ops| :: RowsAllow(Run(ops[..n]), ops[n])
    ensures NeverOverlaps(ops)
  {
    forall n | 0 <= n <= |ops| ensures NoOverlap(Run(ops[..n])) {
      AllowedPrefix(ops, n);
    }
  }

  lemma {:induction false} AllowedPrefix(ops: seq<Op>, n: nat)
    requires n <= |ops| && forall m | 0 <= m < |ops| :: RowsAllow(Run(ops[..m]), ops[m])
    ensures NoOverlap(Run(ops[..n]))
  {
    if n > 0 {
      AllowedPrefix(ops, n - 1);
      RunStep(ops, n - 1);
      assert RowsAllow(Run(ops[..n - 1]), ops[n - 1]);
      RowsSuffice(Run(ops[..n - 1]), ops[n - 1]);
      WriteKeepsNoOverlapExactly(Run(ops[..n - 1]), ops[n - 1]);
    }
  }

  // ---------------------------------------------------------------- capacity

  predicate WithinCapacity(s: Schedule) {
    forall i | 0 <= i < |s.events| ::
      s.events[i].capacity.Some? ==> |s.events[i].participants| <= s.events[i].capacity.value
  }

  /** The capacity read is no larger than the one in place. */
  predicate CapacityRowsAllow(row: Event, seen: Event) {
    row.capacity.Some? ==> seen.capacity.Some? && seen.capacity.value <= row.capacity.value
  }

  predicate PlacesAllow(s: Schedule, op: Op) {
    match op
    case OpAssign(i, seen, _) => i < |s.events| ==> CapacityRowsAllow(s.events[i], seen)
    case OpReplace(i, seen, _) => i < |s.events| ==> CapacityRowsAllow(s.events[i], seen)
    case _ => true
  }

  lemma OneEventWithin(s: Schedule, i: nat, e: Event)
    requires WithinCapacity(s) && i < |s.events|
    ensures WithinCapacity(WithEvent(s, i, e)) <==> (e.capacity.Some? ==> |e.participants| <= e.capacity.value)
  {
    assert WithEvent(s, i, e).events[i] == e;
  }

  lemma RemovalWithin(s: Schedule, i: nat, seen: Event, student: Id)
    requires WithinCapacity(s) && RemoveStudent(s, i, seen, student).Ok?
    ensures WithinCapacity(RemoveStudent(s, i, seen, student).value)
  {
    var people := s.events[i].participants;
    assert people == (people - {student}) + {student};
    OneEventWithin(s, i, s.events[i].(participants := people - {student}));
  }

  /** How many participants a write leaves where, and whether they still fit. */
  ghost predicate FitsPlaces(s: Schedule, op: Op) {
    match op
    case OpAssign(i, seen, students) =>
      AssignStudents(s, i, seen, students).Ok? && s.events[i].capacity.Some? ==>
        |s.events[i].participants + ToSet(students)| <= s.events[i].capacity.value
    case OpReplace(i, seen, students) =>
      ReplaceStudents(s, i, seen, students).Ok? && s.events[i].capacity.Some? ==>
        |students| <= s.events[i].capacity.value
    case _ => true
  }

  lemma WriteKeepsCapacityExactly(s: Schedule, op: Op)
    requires WithinCapacity(s)
    ensures WithinCapacity(After(s, op)) <==> FitsPlaces(s, op)
  {
    if Apply(s, op).Ok? {
      match op
      case OpUpdateEvent(i, seen, p) => OneEventWithin(s, i, Written(s.events[i], Merged(seen, p)));
      case OpAssign(i, seen, students) =>
        AssignIsExact(s, i, seen, students);
        OneEventWithin(s, i, s.events[i].(participants := s.events[i].participants + ToSet(students)));
      case OpReplace(i, seen, students) =>
        DistinctSize(students);
        OneEventWithin(s, i, s.events[i].(participants := ToSet(students)));
      case OpRemove(i, seen, student) => RemovalWithin(s, i, seen, student);
      case _ =>
    }
  }

  lemma PlacesSuffice(s: Schedule, op: Op)
    requires PlacesAllow(s, op)
    ensures FitsPlaces(s, op)
  {
    match op
    case OpAssign(i, seen, students) =>
      if AssignStudents(s, i, seen, students).Ok? {
        AssignIsExact(s, i, seen, students);
      }
    case _ =>
  }

  ghost predicate CapacityAlwaysHolds(ops: seq<Op>) {
    forall n | 0 <= n <= |ops| :: WithinCapacity(Run(ops[..n]))
  }

  ghost predicate PlacesAlwaysFit(ops: seq<Op>) {
    forall n | 0 <= n < |ops| :: FitsPlaces(Run(ops[..n]), ops[n])
  }

  /** No event ever exceeds its capacity in a run exactly when every assignment and replacement
      leaves participants that fit the capacity in place. */
  lemma RunsStayWithinCapacityExactly(ops: seq<Op>)
    ensures CapacityAlwaysHolds(ops) <==> PlacesAlwaysFit(ops)
  {
    if CapacityAlwaysHolds(ops) {
      forall n | 0 <= n < |ops| ensures FitsPlaces(Run(ops[..n]), ops[n]) {
        RunStep(ops, n);
        assert WithinCapacity(Run(ops[..n])) && WithinCapacity(Run(ops[..n + 1]));
        WriteKeepsCapacityExactly(Run(ops[..n]), ops[n]);
      }
    }
    if PlacesAlwaysFit(ops) {
      forall n | 0 <= n <= |ops| ensures WithinCapacity(Run(ops[..n])) {
        FittingPrefix(ops, n);
      }
    }
  }

  lemma {:induction false} FittingPrefix(ops: seq<Op>, n: nat)
    requires PlacesAlwaysFit(ops) && n <= |ops|
    ensures WithinCapacity(Run(ops[..n]))
  {
    if n > 0 {
      FittingPrefix(ops, n - 1);
      RunStep(ops, n - 1);
      assert FitsPlaces(Run(ops[..n - 1]), ops[n - 1]);
      WriteKeepsCapacityExactly(Run(ops[..n - 1]), ops[n - 1]);
    }
  }

  /** Over every run in which the capacity an assignment or a replacement read is never larger
      than the one in place, no event exceeds its capacity. */
  lemma RunsStayWithinCapacity(ops: seq<Op>)
    requires forall n | 0 <= n < |ops| :: PlacesAllow(Run(ops[..n]), ops[n])
    ensures CapacityAlwaysHolds(ops)
  {
    forall n | 0 <= n < |ops| ensures FitsPlaces(Run(ops[..n]), ops[n]) {
      PlacesSuffice(Run(ops[..n]), ops[n]);
    }
    RunsStayWithinCapacityExactly(ops);
  }

  // ---------------------------------------------------------------- rows that are as they were read

  /** The event request finds its row as it read it, and puts no cancelled event back. */
  predicate RowAsRead(s: Schedule, op: Op) {
    match op
    case OpUpdateEvent(i, seen, p) =>
      i < |s.events| ==>
        s.events[i] == seen && (seen.status != EventCancelled || Merged(seen, p).status == EventCancelled)
    case OpAssign(i, seen, _) => i < |s.events| ==> s.events[i] == seen
    case OpReplace(i, seen, _) => i < |s.events| ==> s.events[i] == seen
    case OpSetStatus(ids, status) =>
      status == EventCancelled || forall i | 0 <= i < |s.events| :: !Reactivated(s, ids, i)
    case _ => true
  }

  /** A row that is still as it was read allows every write but putting a cancelled event back. */
  lemma UnchangedRowsAllow(row: Event, p: EventPatch)
    ensures WindowRowsAllow(row, row) && CapacityRowsAllow(row, row)
    ensures row.status != EventCancelled || Merged(row, p).status == EventCancelled ==> EditRowsAllow(row, row, p)
  {
  }

  lemma AsReadAllows(s: Schedule, op: Op)
    requires RowAsRead(s, op)
    ensures RowsAllow(s, op) && PlacesAllow(s, op)
  {
    match op
    case OpUpdateEvent(i, seen, p) => UnchangedRowsAllow(seen, p);
    case _ =>
  }

  /** If every event request finds its row as it read it and none puts a cancelled event back,
      no resource is ever held twice and no event is ever over its capacity: without
      stale rows and without reactivation the checks of the writes suffice. */
  lemma RunsOnRowsAsReadAreSafe(ops: seq<Op>)
    requires forall n | 0 <= n < |ops| :: RowAsRead(Run(ops[..n]), ops[n])
    ensures NeverOverlaps(ops) && CapacityAlwaysHolds(ops)
  {
    forall n | 0 <= n < |ops| ensures RowsAllow(Run(ops[..n]), ops[n]) && PlacesAllow(Run(ops[..n]), ops[n]) {
      AsReadAllows(Run(ops[..n]), ops[n]);
    }
    RunsHaveNoOverlap(ops);
    RunsStayWithinCapacity(ops);
  }
}
