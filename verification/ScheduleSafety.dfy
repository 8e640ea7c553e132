/** Resources and the commitments they hold: no instructor, student or vehicle holds two
    overlapping active ones.  The conflict queries and the lesson writes, exactly. */
module ScheduleSafety {
  import opened Chronology
  import opened TimeWindows
  import opened Schedule

  datatype Resource = Instructor(id: Id) | Student(id: Id) | Vehicle(id: Id)

  /** A commitment: a row of one of the two tables. */
  datatype Key = LessonKey(i: nat) | EventKey(i: nat)

  predicate LessonUses(l: Lesson, r: Resource) {
    match r
    case Instructor(x) => l.instructor == x
    case Student(x) => l.student == x
    case Vehicle(x) => l.vehicle == Some(x)
  }

  predicate EventUses(e: Event, r: Resource) {
    match r
    case Instructor(x) => e.instructor == x
    case Student(x) => x in e.participants
    case Vehicle(x) => e.kind == Drive && e.vehicle == Some(x)
  }

  /** Commitment `k` is active and takes resource `r`. */
  predicate Holds(s: Schedule, k: Key, r: Resource) {
    match k
    case LessonKey(i) => i < |s.lessons| && ActiveLesson(s.lessons[i]) && LessonUses(s.lessons[i], r)
    case EventKey(i) => i < |s.events| && ActiveEvent(s.events[i]) && EventUses(s.events[i], r)
  }

  predicate HasKey(s: Schedule, k: Key) {
    match k case LessonKey(i) => i < |s.lessons| case EventKey(i) => i < |s.events|
  }

  function SpanOf(s: Schedule, k: Key): Window
    requires HasKey(s, k)
  {
    match k case LessonKey(i) => s.lessons[i].span case EventKey(i) => s.events[i].span
  }

  ghost predicate NoOverlap(s: Schedule) {
    forall j, k, r | j != k && Holds(s, j, r) && Holds(s, k, r) :: !Overlaps(SpanOf(s, j), SpanOf(s, k))
  }

  // ---------------------------------------------------------------- checks and resources

  /** No other active commitment of `r` overlaps the window. */
  ghost predicate FreeFor(s: Schedule, r: Resource, span: Window, except: Option<Key>) {
    forall k | except != Some(k) && Holds(s, k, r) :: !Overlaps(SpanOf(s, k), span)
  }

  function ExceptLesson(except: Option<Key>): Option<nat> {
    if except.Some? && except.value.LessonKey? then Some(except.value.i) else None
  }

  function ExceptEvent(except: Option<Key>): Option<nat> {
    if except.Some? && except.value.EventKey? then Some(except.value.i) else None
  }

  predicate Taken(s: Schedule, r: Resource, span: Window, except: Option<Key>) {
    var l, e := ExceptLesson(except), ExceptEvent(except);
    match r
    case Instructor(x) => InstructorHasLesson(s, x, span, l) || InstructorHasEvent(s, x, span, e)
    case Student(x) => StudentHasLesson(s, x, span, l) || StudentHasEvent(s, x, span, e)
    case Vehicle(x) => VehicleTaken(s, x, span, l, e)
  }

  /** The conflict queries of the repository answer exactly whether the resource is free. */
  lemma QueriesAreExact(s: Schedule, r: Resource, span: Window, except: Option<Key>)
    ensures Taken(s, r, span, except) <==> !FreeFor(s, r, span, except)
  {
    var l, e := ExceptLesson(except), ExceptEvent(except);
    if FreeFor(s, r, span, except) {
      forall i | 0 <= i < |s.lessons| && LessonTakes(s, i, span, l) ensures !LessonUses(s.lessons[i], r) {
        assert Holds(s, LessonKey(i), r) <==> LessonUses(s.lessons[i], r);
      }
      forall i | 0 <= i < |s.events| && EventTakes(s, i, span, e) ensures !EventUses(s.events[i], r) {
        assert Holds(s, EventKey(i), r) <==> EventUses(s.events[i], r);
      }
    } else {
      var k :| except != Some(k) && Holds(s, k, r) && Overlaps(SpanOf(s, k), span);
      match k
      case LessonKey(i) => assert LessonTakes(s, i, span, l) && LessonUses(s.lessons[i], r);
      case EventKey(i) => assert EventTakes(s, i, span, e) && EventUses(s.events[i], r);
    }
  }

  // ---------------------------------------------------------------- one row at a time

  ghost predicate SameRow(s: Schedule, t: Schedule, j: Key) {
    && (HasKey(s, j) <==> HasKey(t, j))
    && (HasKey(s, j) ==> SpanOf(s, j) == SpanOf(t, j))
    && forall r :: Holds(s, j, r) <==> Holds(t, j, r)
  }

  ghost predicate SameBut(s: Schedule, t: Schedule, k: Key) {
    HasKey(t, k) && forall j | j != k :: SameRow(s, t, j)
  }

  /** Every resource of the row is free of the other rows. */
  ghost predicate RowFits(s: Schedule, t: Schedule, k: Key)
    requires HasKey(t, k)
  {
    forall r | Holds(t, k, r) :: FreeFor(s, r, SpanOf(t, k), Some(k))
  }

  /** Writing one row keeps the invariant exactly when the new row fits. */
  lemma WriteRow(s: Schedule, t: Schedule, k: Key)
    requires NoOverlap(s) && SameBut(s, t, k)
    ensures NoOverlap(t) <==> RowFits(s, t, k)
  {
    if RowFits(s, t, k) {
      forall i, j, r | i != j && Holds(t, i, r) && Holds(t, j, r)
        ensures !Overlaps(SpanOf(t, i), SpanOf(t, j))
      {
        assert i != k ==> SameRow(s, t, i);
        assert j != k ==> SameRow(s, t, j);
        if i == k {
          assert Holds(s, j, r);
        } else if j == k {
          assert Holds(s, i, r);
        } else {
          assert Holds(s, i, r) && Holds(s, j, r);
        }
      }
    }
    if NoOverlap(t) {
      forall r | Holds(t, k, r) ensures FreeFor(s, r, SpanOf(t, k), Some(k)) {
        forall j | j != k && Holds(s, j, r) ensures !Overlaps(SpanOf(s, j), SpanOf(t, k)) {
          assert SameRow(s, t, j);
          assert Holds(t, j, r);
        }
      }
    }
  }

  /** Dropping commitments never breaks the invariant. */
  lemma Shrink(s: Schedule, t: Schedule)
    requires NoOverlap(s)
    requires forall k, r | Holds(t, k, r) :: Holds(s, k, r) && SpanOf(s, k) == SpanOf(t, k)
    ensures NoOverlap(t)
  {
  }

  lemma PutLesson(s: Schedule, i: nat, l: Lesson)
    requires i <= |s.lessons|
    ensures var t := s.(lessons := if i < |s.lessons| then s.lessons[i := l] else s.lessons + [l]);
            SameBut(s, t, LessonKey(i)) && t.lessons[i] == l
  {
    var t := s.(lessons := if i < |s.lessons| then s.lessons[i := l] else s.lessons + [l]);
    forall j | j != LessonKey(i) ensures SameRow(s, t, j) {
      match j case LessonKey(_) => case EventKey(_) =>
    }
  }

  lemma PutEvent(s: Schedule, i: nat, e: Event)
    requires i <= |s.events|
    ensures var t := s.(events := if i < |s.events| then s.events[i := e] else s.events + [e]);
            SameBut(s, t, EventKey(i)) && t.events[i] == e
  {
    var t := s.(events := if i < |s.events| then s.events[i := e] else s.events + [e]);
    forall j | j != EventKey(i) ensures SameRow(s, t, j) {
      match j case LessonKey(_) => case EventKey(_) =>
    }
  }

  // ---------------------------------------------------------------- lessons

  /** The lesson checks hold exactly when the row fits among the others. */
  lemma LessonRowFits(s: Schedule, i: nat, l: Lesson)
    requires i <= |s.lessons| && ActiveLesson(l)
    ensures var t := s.(lessons := if i < |s.lessons| then s.lessons[i := l] else s.lessons + [l]);
            var except := Some(LessonKey(i));
            HasKey(t, LessonKey(i)) &&
            (RowFits(s, t, LessonKey(i)) <==>
              && !Taken(s, Student(l.student), l.span, except)
              && !Taken(s, Instructor(l.instructor), l.span, except)
              && (l.vehicle.Some? ==> !Taken(s, Vehicle(l.vehicle.value), l.span, except)))
  {
    var t := s.(lessons := if i < |s.lessons| then s.lessons[i := l] else s.lessons + [l]);
    PutLesson(s, i, l);
    forall r ensures Holds(t, LessonKey(i), r) <==> LessonUses(l, r) {
    }
    forall r {
      QueriesAreExact(s, r, l.span, Some(LessonKey(i)));
    }
    assert LessonUses(l, Student(l.student)) && LessonUses(l, Instructor(l.instructor));
    assert l.vehicle.Some? ==> LessonUses(l, Vehicle(l.vehicle.value));
  }

  /** Past the end of the table there is nothing to leave out. */
  lemma NewLessonExcludesNothing(s: Schedule, r: Resource, span: Window)
    ensures Taken(s, r, span, Some(LessonKey(|s.lessons|))) <==> Taken(s, r, span, None)
  {
    QueriesAreExact(s, r, span, None);
    QueriesAreExact(s, r, span, Some(LessonKey(|s.lessons|)));
    assert forall k | Holds(s, k, r) :: k != LessonKey(|s.lessons|);
  }

  function WithLesson(s: Schedule, course: Id, student: Id, instructor: Id, span: Window, vehicle: Id): Schedule {
    s.(lessons := s.lessons + [Lesson(course, student, instructor, Some(vehicle), true, span, Scheduled, false)])
  }

  lemma NewLessonFits(s: Schedule, course: Id, student: Id, instructor: Id, span: Window, vehicle: Id)
    requires NoOverlap(s)
    ensures NoOverlap(WithLesson(s, course, student, instructor, span, vehicle)) <==>
              && !Taken(s, Student(student), span, None)
              && !Taken(s, Instructor(instructor), span, None)
              && !Taken(s, Vehicle(vehicle), span, None)
  {
    var l := Lesson(course, student, instructor, Some(vehicle), true, span, Scheduled, false);
    LessonRowFits(s, |s.lessons|, l);
    PutLesson(s, |s.lessons|, l);
    WriteRow(s, WithLesson(s, course, student, instructor, span, vehicle), LessonKey(|s.lessons|));
    NewLessonExcludesNothing(s, Student(student), span);
    NewLessonExcludesNothing(s, Instructor(instructor), span);
    NewLessonExcludesNothing(s, Vehicle(vehicle), span);
  }

  /** What a booking needs besides a free window. */
  predicate Bookable(s: Schedule, course: Id, student: Id, instructor: Id, span: Window, choice: VehicleChoice) {
    && course in s.courses && !s.courses[course].deleted && s.courses[course].active
    && (choice.AnyOf? ==> s.courses[course].kind != TheoryGroup)
    && (if choice.AnyOf? && choice.remainingPackage
        then FinalLessonError(s, course, student, span).None?
        else DurationAllowed(s.settings, false, span))
    && PackageError(s, course, student, span, None).None?
    && HoursError(s, instructor, span, None, None).None?
  }

  /** A manager's booking is accepted exactly when the rules allow it and the schedule with
      the new lesson has no overlap; it then adds that lesson and nothing else. */
  lemma BookingIsExact(s: Schedule, course: Id, student: Id, instructor: Id, span: Window, vehicle: Id)
    requires NoOverlap(s)
    ensures var r := BookLesson(s, course, student, instructor, span, Named(vehicle));
            var t := WithLesson(s, course, student, instructor, span, vehicle);
            && (r.Ok? <==> Bookable(s, course, student, instructor, span, Named(vehicle)) && NoOverlap(t))
            && (r.Ok? ==> r.value == t)
  {
    NewLessonFits(s, course, student, instructor, span, vehicle);
  }

  predicate Usable(s: Schedule, v: Id, usable: set<Id>, span: Window) {
    v in usable && !VehicleTaken(s, v, span, None, None)
  }

  /** The choice is the first candidate that would do; there is none only if none would. */
  lemma {:induction false} FirstFreeIsFirst(s: Schedule, candidates: seq<Id>, usable: set<Id>, span: Window)
    returns (n: nat)
    ensures n <= |candidates| && forall m | 0 <= m < n :: !Usable(s, candidates[m], usable, span)
    ensures FirstFree(s, candidates, usable, span) == if n < |candidates| then Some(candidates[n]) else None
    ensures n < |candidates| ==> Usable(s, candidates[n], usable, span)
  {
    if candidates == [] || Usable(s, candidates[0], usable, span) {
      n := 0;
    } else {
      var k := FirstFreeIsFirst(s, candidates[1..], usable, span);
      n := k + 1;
      assert forall m | 0 < m < n :: candidates[m] == candidates[1..][m - 1];
    }
  }

  lemma {:induction false} OthersAre(candidates: seq<Id>, preferred: Id)
    ensures forall v :: v in Others(candidates, preferred) <==> v in candidates && v != preferred
  {
    if candidates != [] {
      OthersAre(candidates[1..], preferred);
      assert candidates == [candidates[0]] + candidates[1..];
    }
  }

  lemma PreferredFirstIsCandidates(candidates: seq<Id>, preferred: Option<Id>)
    ensures forall v :: v in PreferredFirst(candidates, preferred) <==> v in candidates
    ensures preferred.Some? && preferred.value in candidates ==>
              PreferredFirst(candidates, preferred)[0] == preferred.value
  {
    if preferred.Some? {
      OthersAre(candidates, preferred.value);
    }
  }

  /** A student's own booking is accepted exactly when the rules allow it and some usable
      vehicle of the school leaves the schedule without overlap; the vehicle taken is the
      default one whenever that one would do. */
  lemma SelfBookingIsExact(s: Schedule, course: Id, student: Id, instructor: Id, span: Window,
                           candidates: seq<Id>, preferred: Option<Id>, usable: set<Id>, remainingPackage: bool)
    requires NoOverlap(s)
    ensures var choice := AnyOf(candidates, preferred, usable, remainingPackage);
            var r := BookLesson(s, course, student, instructor, span, choice);
            && (r.Ok? <==>
                  && Bookable(s, course, student, instructor, span, choice)
                  && exists v :: v in candidates && v in usable
                                 && NoOverlap(WithLesson(s, course, student, instructor, span, v)))
            && (r.Ok? ==>
                  && NoOverlap(r.value)
                  && exists v :: v in candidates && v in usable
                                 && r.value == WithLesson(s, course, student, instructor, span, v))
            && (r.Ok? && preferred.Some? && preferred.value in candidates && preferred.value in usable
                && NoOverlap(WithLesson(s, course, student, instructor, span, preferred.value))
                ==> r.value == WithLesson(s, course, student, instructor, span, preferred.value))
  {
    PreferredFirstIsCandidates(candidates, preferred);
    var n := FirstFreeIsFirst(s, PreferredFirst(candidates, preferred), usable, span);
    forall v {
      NewLessonFits(s, course, student, instructor, span, v);
    }
  }

  /** The rows of a schedule without overlap fit. */
  lemma OldLessonFits(s: Schedule, i: nat)
    requires NoOverlap(s) && i < |s.lessons| && ActiveLesson(s.lessons[i])
    ensures var l, except := s.lessons[i], Some(LessonKey(i));
            && !Taken(s, Student(l.student), l.span, except)
            && !Taken(s, Instructor(l.instructor), l.span, except)
            && (l.vehicle.Some? ==> !Taken(s, Vehicle(l.vehicle.value), l.span, except))
  {
    assert s.lessons[i := s.lessons[i]] == s.lessons;
    assert s.(lessons := s.lessons) == s;
    PutLesson(s, i, s.lessons[i]);
    LessonRowFits(s, i, s.lessons[i]);
    WriteRow(s, s, LessonKey(i));
  }

  /** An edit is accepted exactly when the lesson may be edited, the rules that guard what
      has changed allow it, and the schedule with the edited lesson has no overlap; it then
      changes the edited fields of that lesson and nothing else. */
  lemma UpdateLessonIsExact(s: Schedule, i: nat, p: LessonPatch, now: int)
    requires NoOverlap(s) && i < |s.lessons| && !s.lessons[i].deleted && s.lessons[i].course in s.courses
    ensures var r, l, m := UpdateLesson(s, i, p, now), s.lessons[i], Patched(s.lessons[i], p);
            var t := s.(lessons := s.lessons[i := m]);
            && (r.Ok? <==>
                  && EditableError(l, p, now).None?
                  && (m.span != l.span ==> DurationAllowed(s.settings, false, m.span))
                  && (m.span != l.span || m.instructor != l.instructor ==>
                        && PackageError(s, m.course, m.student, m.span, Some(i)).None?
                        && HoursError(s, m.instructor, m.span, None, Some(i)).None?)
                  && NoOverlap(t))
            && (r.Ok? ==> r.value == t)
  {
    var l, m := s.lessons[i], Patched(s.lessons[i], p);
    if EditableError(l, p, now).None? {
      OldLessonFits(s, i);
      PutLesson(s, i, m);
      LessonRowFits(s, i, m);
      WriteRow(s, s.(lessons := s.lessons[i := m]), LessonKey(i));
      assert m == l ==> s.lessons[i := m] == s.lessons;
    }
  }

  // ---------------------------------------------------------------- events

  /** The event checks hold exactly when the row fits among the others. */
  lemma EventRowFits(s: Schedule, i: nat, e: Event)
    requires i <= |s.events| && ActiveEvent(e)
    ensures var t := s.(events := if i < |s.events| then s.events[i := e] else s.events + [e]);
            var except := Some(EventKey(i));
            HasKey(t, EventKey(i)) &&
            (RowFits(s, t, EventKey(i)) <==>
              && !Taken(s, Instructor(e.instructor), e.span, except)
              && (forall p | p in e.participants :: !Taken(s, Student(p), e.span, except))
              && (e.kind == Drive && e.vehicle.Some? ==> !Taken(s, Vehicle(e.vehicle.value), e.span, except)))
  {
    var t := s.(events := if i < |s.events| then s.events[i := e] else s.events + [e]);
    PutEvent(s, i, e);
    forall r ensures Holds(t, EventKey(i), r) <==> EventUses(e, r) {
    }
    forall r {
      QueriesAreExact(s, r, e.span, Some(EventKey(i)));
    }
    assert EventUses(e, Instructor(e.instructor));
    assert forall p | p in e.participants :: EventUses(e, Student(p));
    assert e.kind == Drive && e.vehicle.Some? ==> EventUses(e, Vehicle(e.vehicle.value));
  }

  lemma NewEventExcludesNothing(s: Schedule, r: Resource, span: Window)
    ensures Taken(s, r, span, Some(EventKey(|s.events|))) <==> Taken(s, r, span, None)
  {
    QueriesAreExact(s, r, span, None);
    QueriesAreExact(s, r, span, Some(EventKey(|s.events|)));
    assert forall k | Holds(s, k, r) :: k != EventKey(|s.events|);
  }

  /** An event is created exactly when its fields, its duration and the instructor's hours
      are right and the schedule with it has no overlap. */
  lemma CreateEventIsExact(s: Schedule, instructor: Id, course: Option<Id>, kind: EventKind, span: Window,
                           vehicle: Option<Id>, capacity: Option<nat>)
    requires NoOverlap(s)
    ensures var r := CreateEvent(s, instructor, course, kind, span, vehicle, capacity);
            var row := Event(instructor, course, kind, span, if kind == Drive then vehicle else None,
                             capacity, true, Planned, {});
            var t := s.(events := s.events + [row]);
            && (r.Ok? <==> (kind == Drive ==> vehicle.Some?) && DurationAllowed(s.settings, kind == Theory, span)
                           && HoursError(s, instructor, span, None, None).None? && NoOverlap(t))
            && (r.Ok? ==> r.value == t)
  {
    var row := Event(instructor, course, kind, span, if kind == Drive then vehicle else None,
                     capacity, true, Planned, {});
    var t := s.(events := s.events + [row]);
    EventRowFits(s, |s.events|, row);
    PutEvent(s, |s.events|, row);
    WriteRow(s, t, EventKey(|s.events|));
    NewEventExcludesNothing(s, Instructor(instructor), span);
    if kind == Drive && vehicle.Some? {
      NewEventExcludesNothing(s, Vehicle(vehicle.value), span);
    }
  }

  function WithEvent(s: Schedule, i: nat, e: Event): Schedule
    requires i < |s.events|
  {
    s.(events := s.events[i := e])
  }

  lemma WithEventFits(s: Schedule, i: nat, e: Event)
    requires NoOverlap(s) && i < |s.events| && ActiveEvent(e)
    ensures var except := Some(EventKey(i));
            NoOverlap(WithEvent(s, i, e)) <==>
              && !Taken(s, Instructor(e.instructor), e.span, except)
              && (forall p | p in e.participants :: !Taken(s, Student(p), e.span, except))
              && (e.kind == Drive && e.vehicle.Some? ==> !Taken(s, Vehicle(e.vehicle.value), e.span, except))
  {
    PutEvent(s, i, e);
    EventRowFits(s, i, e);
    WriteRow(s, WithEvent(s, i, e), EventKey(i));
  }

  /** The queries of an event's checks, as questions about resources. */
  lemma EventQueries(s: Schedule, i: nat, span: Window)
    ensures var except := Some(EventKey(i));
            && (forall x :: Taken(s, Instructor(x), span, except) <==>
                              InstructorHasLesson(s, x, span, None) || InstructorHasEvent(s, x, span, Some(i)))
            && (forall x :: Taken(s, Student(x), span, except) <==> ParticipantTaken(s, Some(i), x, span))
            && (forall x :: Taken(s, Vehicle(x), span, except) <==> VehicleTaken(s, x, span, None, Some(i)))
  {
  }

  lemma {:induction false} DistinctSize(ids: seq<Id>)
    requires Distinct(ids)
    ensures |ToSet(ids)| == |ids|
  {
    if ids != [] {
      var n := |ids| - 1;
      DistinctSize(ids[..n]);
      assert ToSet(ids) == ToSet(ids[..n]) + {ids[n]};
    }
  }
}
