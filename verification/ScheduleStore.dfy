/** The schedule writes as the repository runs them: guards in order, then rows updated in
    place, inside a serializable transaction that is tried at most three times. */
module ScheduleStore {
  import opened Chronology
  import opened TimeWindows
  import S = Schedule
  import opened ScheduleRules
  import opened ScheduleSafety

  type Id = S.Id
  type Error = S.Error

  const MAX_SERIALIZATION_ATTEMPTS: nat := 3

  /** What a write leaves behind: the new tables on success, the old ones on an error. */
  ghost predicate Wrote(before: S.Schedule, after: S.Schedule, outcome: S.Result<S.Schedule>, error: Option<Error>) {
    match outcome
    case Ok(t) => after == t && error.None?
    case Err(e) => after == before && error == Some(e)
  }

  /** Other transactions that commit one after the other. */
  function Continue(s: S.Schedule, ops: seq<S.Op>): S.Schedule {
    if ops == [] then s else S.After(Continue(s, ops[..|ops| - 1]), ops[|ops| - 1])
  }

  function Flat(batches: seq<seq<S.Op>>): seq<S.Op> {
    if batches == [] then [] else Flat(batches[..|batches| - 1]) + batches[|batches| - 1]
  }

  lemma {:induction false} ContinueConcat(s: S.Schedule, a: seq<S.Op>, b: seq<S.Op>)
    ensures Continue(s, a + b) == Continue(Continue(s, a), b)
  {
    if b == [] {
      assert a + b == a;
    } else {
      assert (a + b)[..|a + b| - 1] == a + b[..|b| - 1];
      ContinueConcat(s, a, b[..|b| - 1]);
    }
  }

  /** What a request on an event asks for. */
  datatype EventBody =
    | Patch(patch: S.EventPatch) | Assign(students: seq<Id>) | Replace(students: seq<Id>) | Remove(student: Id) | Delete

  function OpOf(body: EventBody, i: nat, seen: S.Event): S.Op {
    match body
    case Patch(p) => S.OpUpdateEvent(i, seen, p)
    case Assign(students) => S.OpAssign(i, seen, students)
    case Replace(students) => S.OpReplace(i, seen, students)
    case Remove(student) => S.OpRemove(i, seen, student)
    case Delete => S.OpDeleteEvent(i, seen)
  }

  class Store {
    var lessons: seq<S.Lesson>
    var events: seq<S.Event>
    var courses: map<Id, S.Course>
    var hours: map<(Id, int), Window>
    var blocks: seq<S.Block>
    var settings: Option<S.Settings>

    constructor ()
      ensures View() == S.Empty()
    {
      lessons, events, courses, hours, blocks, settings := [], [], map[], map[], [], None;
    }

    function View(): S.Schedule
      reads this
    {
      S.Schedule(lessons, events, courses, hours, blocks, settings)
    }

    // -------------------------------------------------------------- lessons

    /** The first usable vehicle without a conflict, in the order of the candidates. */
    method FindAvailableVehicle(ordered: seq<Id>, usable: set<Id>, span: Window) returns (vehicle: Option<Id>)
      ensures vehicle == S.FirstFree(View(), ordered, usable, span)
    {
      var i := 0;
      while i < |ordered|
        invariant 0 <= i <= |ordered|
        invariant S.FirstFree(View(), ordered, usable, span) == S.FirstFree(View(), ordered[i..], usable, span)
      {
        assert ordered[i..][1..] == ordered[i + 1..];
        if ordered[i] in usable {
          if !S.VehicleTaken(View(), ordered[i], span, None, None) {
            return Some(ordered[i]);
          }
        }
        i := i + 1;
      }
      return None;
    }

    method ChooseVehicle(choice: S.VehicleChoice, span: Window) returns (vehicle: Option<Id>, error: Option<Error>)
      ensures match S.ChooseVehicle(View(), choice, span)
              case Ok(v) => vehicle == Some(v) && error.None?
              case Err(e) => vehicle.None? && error == Some(e)
    {
      match choice {
        case Named(v) =>
          if S.VehicleTaken(View(), v, span, None, None) {
            return None, Some(S.VehicleBusy);
          }
          return Some(v), None;
        case AnyOf(candidates, preferred, usable, _) =>
          vehicle := FindAvailableVehicle(S.PreferredFirst(candidates, preferred), usable, span);
          error := if vehicle.None? then Some(S.NoVehicleAvailable) else None;
      }
    }

    method CreatePracticeLesson(course: Id, student: Id, instructor: Id, span: Window, choice: S.VehicleChoice)
      returns (error: Option<Error>)
      modifies this`lessons
      ensures Wrote(old(View()), View(), S.BookLesson(old(View()), course, student, instructor, span, choice), error)
    {
      error := S.BookingError(View(), course, student, instructor, span, choice);
      if error.Some? {
        return;
      }
      var vehicle: Option<Id>;
      vehicle, error := ChooseVehicle(choice, span);
      if error.Some? {
        return;
      }
      lessons := lessons + [S.Lesson(course, student, instructor, vehicle, true, span, S.Scheduled, false)];
    }

    /** The checks on the merged row, each behind the change that calls for it. */
    method CheckMove(i: nat, m: S.Lesson) returns (error: Option<Error>)
      requires i < |lessons| && m.course in courses && m.vehicle.Some?
      ensures error == S.MoveError(View(), i, m)
    {
      var l := lessons[i];
      var timeChanged := m.span != l.span;
      if timeChanged {
        if !S.DurationAllowed(settings, false, m.span) {
          return Some(S.BadRequest);
        }
      }
      if timeChanged || m.instructor != l.instructor {
        error := S.LessonWindowError(View(), m.course, m.student, m.instructor, m.span, Some(i));
        if error.Some? {
          return;
        }
      }
      if S.VehicleTaken(View(), m.vehicle.value, m.span, Some(i), None) {
        return Some(S.VehicleBusy);
      }
      return None;
    }

    method UpdateLesson(i: nat, p: S.LessonPatch, now: int) returns (error: Option<Error>)
      modifies this`lessons
      ensures Wrote(old(View()), View(), S.UpdateLesson(old(View()), i, p, now), error)
      ensures error.None? ==>
                && i < |old(lessons)| && lessons == old(lessons)[i := lessons[i]]
                && AsPatched(old(lessons)[i], p, lessons[i].span, lessons[i].instructor, lessons[i].vehicle)
                && lessons[i] == old(lessons)[i].(span := lessons[i].span, instructor := lessons[i].instructor,
                                                  vehicle := lessons[i].vehicle)
    {
      if i >= |lessons| || lessons[i].deleted || lessons[i].course !in courses {
        return Some(S.NotFound);
      }
      var l := lessons[i];
      var m := S.Patched(l, p);
      error := S.EditableError(l, p, now);
      if error.Some? {
        return;
      }
      if m == l {
        return None;
      }
      error := CheckMove(i, m);
      if error.None? {
        lessons := lessons[i := m];
      }
    }

    method CancelLesson(i: nat, canceller: Option<Id>, now: int) returns (error: Option<Error>)
      modifies this`lessons
      ensures Wrote(old(View()), View(), S.CancelLesson(old(View()), i, canceller, now), error)
    {
      if i >= |lessons| || lessons[i].deleted {
        return Some(S.NotFound);
      }
      var l := lessons[i];
      if canceller.Some? {
        if canceller.value != l.student || !l.practice {
          return Some(S.BadRequest);
        }
      }
      if l.status != S.Scheduled || l.span.start <= now {
        return Some(S.BadRequest);
      }
      lessons := lessons[i := l.(status := S.Cancelled)];
      return None;
    }

    // -------------------------------------------------------------- events

    method CreateEvent(instructor: Id, course: Option<Id>, kind: S.EventKind, span: Window,
                       vehicle: Option<Id>, capacity: Option<nat>) returns (error: Option<Error>)
      modifies this`events
      ensures Wrote(old(View()), View(),
                    S.CreateEvent(old(View()), instructor, course, kind, span, vehicle, capacity), error)
    {
      if kind == S.Drive && vehicle.None? {
        return Some(S.BadRequest);
      }
      if !S.DurationAllowed(settings, kind == S.Theory, span) {
        return Some(S.BadRequest);
      }
      error := S.EventWindowError(View(), instructor, span, None, {});
      if error.Some? {
        return;
      }
      if kind == S.Drive {
        if S.VehicleTaken(View(), vehicle.value, span, None, None) {
          return Some(S.VehicleBusy);
        }
      }
      events := events + [S.Event(instructor, course, kind, span, if kind == S.Drive then vehicle else None,
                                  capacity, true, S.Planned, {})];
      return None;
    }

    /** The checks on the merged row: changes are judged against the row that was read, the
        participants are those of the row in place. */
    method CheckEventChange(i: nat, seen: S.Event, m: S.Event, kindGiven: bool) returns (error: Option<Error>)
      requires i < |events|
      ensures error == S.EventChangeError(View(), i, seen, m, kindGiven)
    {
      var participants := events[i].participants;
      var timed := m.span != seen.span || m.instructor != seen.instructor;
      if m.span.start >= m.span.end {
        return Some(S.BadRequest);
      }
      if m.kind == S.Drive && m.vehicle.None? {
        return Some(S.BadRequest);
      }
      if (m.span != seen.span || kindGiven) && !S.DurationAllowed(settings, m.kind == S.Theory, m.span) {
        return Some(S.BadRequest);
      }
      if timed {
        error := S.EventWindowError(View(), m.instructor, m.span, Some(i), participants);
        if error.Some? {
          return;
        }
      }
      if m.kind == S.Drive && (timed || m.vehicle != seen.vehicle || m.kind != seen.kind) {
        if S.VehicleTaken(View(), m.vehicle.value, m.span, None, Some(i)) {
          return Some(S.VehicleBusy);
        }
      }
      if m.capacity.Some? && m.capacity.value < |participants| {
        return Some(S.CapacityExceeded);
      }
      return None;
    }

    method UpdateEvent(i: nat, seen: S.Event, p: S.EventPatch) returns (error: Option<Error>)
      modifies this`events
      ensures Wrote(old(View()), View(), S.UpdateEvent(old(View()), i, seen, p), error)
    {
      if i >= |events| || !seen.active {
        return Some(S.NotFound);
      }
      var m := S.Merged(seen, p);
      error := CheckEventChange(i, seen, m, p.kind.Some?);
      if error.Some? {
        return;
      }
      var vehicle := if m.kind == S.Drive then m.vehicle else None;
      events := events[i := events[i].(instructor := m.instructor, kind := m.kind, status := m.status,
                                       span := m.span, vehicle := vehicle, capacity := m.capacity)];
    }

    method DeleteEvent(i: nat, seen: S.Event) returns (error: Option<Error>)
      modifies this`events
      ensures Wrote(old(View()), View(), S.DeleteEvent(old(View()), i, seen), error)
    {
      if i >= |events| {
        return Some(S.NotFound);
      }
      if !seen.active {
        return Some(S.BadRequest);
      }
      events := events[i := events[i].(active := false)];
      return None;
    }

    // -------------------------------------------------------------- participants

    /** Splits the request into the students already there and the new ones. */
    method SplitStudents(students: seq<Id>, existing: set<Id>) returns (added: seq<Id>, skipped: nat)
      requires S.Distinct(students)
      ensures SplitInto(students, existing, added, skipped)
    {
      added, skipped := [], 0;
      for k := 0 to |students|
        invariant SplitInto(students[..k], existing, added, skipped)
      {
        NewMember(students, k);
        SplitOneMore(students[..k], existing, added, skipped, students[k]);
        assert students[..k + 1] == students[..k] + [students[k]];
        if students[k] in existing {
          skipped := skipped + 1;
        } else {
          added := added + [students[k]];
        }
      }
      assert students[..|students|] == students;
    }

    /** Checks the new students one after the other. */
    method AnyConflicting(event: nat, span: Window, added: seq<Id>) returns (any: bool)
      ensures any <==> exists p :: p in added && S.ParticipantTaken(View(), Some(event), p, span)
    {
      for k := 0 to |added|
        invariant forall j | 0 <= j < k :: !S.ParticipantTaken(View(), Some(event), added[j], span)
      {
        var busy := FindConflicting(event, span, [added[k]]);
        if added[k] in busy {
          return true;
        }
      }
      return false;
    }

    /** The students of a list with another commitment in the window, collected row by row. */
    method FindConflicting(event: nat, span: Window, candidates: seq<Id>) returns (busy: set<Id>)
      ensures forall p :: p in busy <==> p in candidates && S.ParticipantTaken(View(), Some(event), p, span)
    {
      busy := {};
      for i := 0 to |lessons|
        invariant forall p :: p in busy <==> p in candidates && TakenByLesson(p, span, i)
      {
        if S.LessonTakes(View(), i, span, None) && lessons[i].student in candidates {
          busy := busy + {lessons[i].student};
        }
      }
      var byLessons := busy;
      for i := 0 to |events|
        invariant forall p :: p in busy <==> p in byLessons || (p in candidates && TakenByEvent(p, span, event, i))
      {
        if S.EventTakes(View(), i, span, Some(event)) {
          busy := busy + set p | p in events[i].participants && p in candidates;
        }
      }
      forall p ensures TakenByLesson(p, span, |lessons|) == S.StudentHasLesson(View(), p, span, None) {}
      forall p ensures TakenByEvent(p, span, event, |events|) == S.StudentHasEvent(View(), p, span, Some(event)) {}
    }

    predicate TakenByLesson(p: Id, span: Window, n: nat)
      reads this
    {
      exists i | 0 <= i < n && i < |lessons| :: S.LessonTakes(View(), i, span, None) && lessons[i].student == p
    }

    predicate TakenByEvent(p: Id, span: Window, event: nat, n: nat)
      reads this
    {
      exists i | 0 <= i < n && i < |events| :: S.EventTakes(View(), i, span, Some(event)) && p in events[i].participants
    }

    /** Window and capacity are those of the row read; the participants are read here. */
    method AssignStudents(i: nat, seen: S.Event, students: seq<Id>)
      returns (error: Option<Error>, newCount: nat, skipped: nat)
      modifies this`events
      ensures Wrote(old(View()), View(), S.AssignStudents(old(View()), i, seen, students), error)
      ensures error.None? ==> && newCount + skipped == |students|
                              && newCount == |events[i].participants| - |old(events[i].participants)|
    {
      newCount, skipped := 0, 0;
      if !S.Distinct(students) {
        return Some(S.BadRequest), 0, 0;
      }
      error := S.TheoryEventError(View(), i, seen);
      if error.Some? {
        return;
      }
      var row := events[i];
      var added: seq<Id>;
      added, skipped := SplitStudents(students, row.participants);
      DistinctSize(added);
      if seen.capacity.Some? && |row.participants| + |added| > seen.capacity.value {
        return Some(S.CapacityExceeded), 0, 0;
      }
      var taken := AnyConflicting(i, seen.span, added);
      assert forall p :: p in added <==> p in S.ToSet(added);
      if taken {
        return Some(S.StudentBusy), 0, 0;
      }
      events := events[i := row.(participants := row.participants + S.ToSet(added))];
      newCount := |added|;
      error := None;
    }

    method RemoveStudent(i: nat, seen: S.Event, student: Id) returns (error: Option<Error>)
      modifies this`events
      ensures Wrote(old(View()), View(), S.RemoveStudent(old(View()), i, seen, student), error)
    {
      error := S.TheoryEventError(View(), i, seen);
      if error.Some? {
        return;
      }
      if student !in events[i].participants {
        return Some(S.NotFound);
      }
      events := events[i := events[i].(participants := events[i].participants - {student})];
      return None;
    }

    method ReplaceStudents(i: nat, seen: S.Event, students: seq<Id>) returns (error: Option<Error>)
      modifies this`events
      ensures Wrote(old(View()), View(), S.ReplaceStudents(old(View()), i, seen, students), error)
    {
      if !S.Distinct(students) {
        return Some(S.BadRequest);
      }
      error := S.TheoryEventError(View(), i, seen);
      if error.Some? {
        return;
      }
      if seen.capacity.Some? && |students| > seen.capacity.value {
        return Some(S.CapacityExceeded);
      }
      var busy := FindConflicting(i, seen.span, students);
      if busy != {} {
        ghost var p :| p in busy;
        assert p in students && S.ParticipantTaken(View(), Some(i), p, seen.span);
        return Some(S.StudentBusy);
      }
      var row := events[i];
      var toRemove := set p | p in row.participants && p !in students;
      var toAdd := set p | p in students && p !in row.participants;
      assert (row.participants - toRemove) + toAdd == S.ToSet(students);
      events := events[i := row.(participants := (row.participants - toRemove) + toAdd)];
      return None;
    }

    // -------------------------------------------------------------- courses

    /** Builds the patch field by field; a structural change of a course in use is refused. */
    method PatchCourse(course: Id, kind: Option<S.CourseKind>, totalHours: Option<nat>) returns (error: Option<Error>)
      modifies this`courses
      ensures Wrote(old(View()), View(), S.PatchCourse(old(View()), course, kind, totalHours), error)
    {
      if course !in courses || courses[course].deleted {
        return Some(S.NotFound);
      }
      var next := courses[course];
      if kind.Some? {
        next := next.(kind := kind.value);
      }
      if totalHours.Some? {
        next := next.(totalHours := totalHours.value);
      }
      if next != courses[course] {
        if S.CourseUsed(View(), course) {
          return Some(S.CourseInUse);
        }
      }
      courses := courses[course := next];
      return None;
    }

    // -------------------------------------------------------------- transactions

    /** One status for the events that were found active. */
    method SetEventStatus(ids: set<nat>, status: S.EventStatus)
      modifies this`events
      ensures View() == S.SetEventStatus(old(View()), ids, status)
    {
      events := S.SetEventStatus(View(), ids, status).events;
    }

    /** The body of one write. */
    method Write(op: S.Op) returns (error: Option<Error>)
      modifies this
      ensures Wrote(old(View()), View(), S.Apply(old(View()), op), error)
    {
      match op {
        case OpBook(course, student, instructor, span, choice) =>
          error := CreatePracticeLesson(course, student, instructor, span, choice);
        case OpUpdateLesson(i, p, now) => error := UpdateLesson(i, p, now);
        case OpCancel(i, canceller, now) => error := CancelLesson(i, canceller, now);
        case OpCreateEvent(instructor, course, kind, span, vehicle, capacity) =>
          error := CreateEvent(instructor, course, kind, span, vehicle, capacity);
        case OpUpdateEvent(i, seen, p) => error := UpdateEvent(i, seen, p);
        case OpDeleteEvent(i, seen) => error := DeleteEvent(i, seen);
        case OpSetStatus(ids, status) =>
          SetEventStatus(ids, status);
          error := None;
        case OpAssign(i, seen, students) =>
          var newCount, skipped;
          error, newCount, skipped := AssignStudents(i, seen, students);
        case OpReplace(i, seen, students) => error := ReplaceStudents(i, seen, students);
        case OpRemove(i, seen, student) => error := RemoveStudent(i, seen, student);
        case OpPatchCourse(course, kind, totalHours) => error := PatchCourse(course, kind, totalHours);
        case OpNewCourse(course, c) =>
          if course in courses {
            return Some(S.BadRequest);
          }
          courses := courses[course := c];
          error := None;
        case OpSettings(h, b, st) =>
          hours, blocks, settings := h, b, st;
          error := None;
      }
    }

    method Restore(t: S.Schedule)
      modifies this
      ensures View() == t
    {
      lessons, events, courses := t.lessons, t.events, t.courses;
      hours, blocks, settings := t.hours, t.blocks, t.settings;
    }

    /** A request on an event: it reads the row, others commit, and only then its own
        transaction runs, with the row as it was read. */
    method EventRequest(i: nat, body: EventBody, meanwhile: seq<S.Op>) returns (error: Option<Error>)
      modifies this
      ensures i >= |old(events)| ==> error == Some(S.NotFound) && View() == old(View())
      ensures i < |old(events)| ==>
                var before := Continue(old(View()), meanwhile);
                Wrote(before, View(), S.Apply(before, OpOf(body, i, old(events[i]))), error)
    {
      if i >= |events| {
        return Some(S.NotFound);
      }
      var seen := events[i];
      Restore(Continue(View(), meanwhile));
      error := Write(OpOf(body, i, seen));
    }

    /** One write with retries.  `others[k]` is what other transactions commit before attempt
        `k`, and the first `conflicts` attempts fail with a serialization conflict.  Whatever
        happens, the write takes effect once, as one step after everything committed before
        it, or not at all. */
    method RunScheduleWriteTransaction(op: S.Op, others: seq<seq<S.Op>>, conflicts: nat)
      returns (error: Option<Error>, exhausted: bool)
      requires |others| == MAX_SERIALIZATION_ATTEMPTS
      modifies this
      ensures exhausted <==> conflicts >= MAX_SERIALIZATION_ATTEMPTS
      ensures exhausted ==> View() == Continue(old(View()), Flat(others))
      ensures !exhausted ==>
                var before := Continue(old(View()), Flat(others[..conflicts + 1]));
                Wrote(before, View(), S.Apply(before, op), error)
    {
      var attempt := 0;
      while attempt < MAX_SERIALIZATION_ATTEMPTS
        invariant attempt <= MAX_SERIALIZATION_ATTEMPTS && attempt <= conflicts
        invariant View() == Continue(old(View()), Flat(others[..attempt]))
      {
        FlatOneMore(old(View()), others, attempt);
        Restore(Continue(View(), others[attempt]));
        var start := View();
        error := Write(op);
        if attempt >= conflicts {
          return error, false;
        }
        // The database rolls the attempt back.
        Restore(start);
        attempt := attempt + 1;
      }
      assert others[..attempt] == others;
      return None, true;
    }
  }

  lemma FlatOneMore(s: S.Schedule, others: seq<seq<S.Op>>, k: nat)
    requires k < |others|
    ensures Continue(s, Flat(others[..k + 1])) == Continue(Continue(s, Flat(others[..k])), others[k])
  {
    assert others[..k + 1][..k] == others[..k];
    ContinueConcat(s, Flat(others[..k]), others[k]);
  }

  /** What splitting a request promises: the new students once each, the rest counted. */
  predicate SplitInto(students: seq<Id>, existing: set<Id>, added: seq<Id>, skipped: nat) {
    && S.Distinct(added) && S.ToSet(added) == S.ToSet(students) - existing
    && |added| + skipped == |students| && skipped == |S.ToSet(students) * existing|
  }

  lemma SplitOneMore(students: seq<Id>, existing: set<Id>, added: seq<Id>, skipped: nat, x: Id)
    requires SplitInto(students, existing, added, skipped) && x !in S.ToSet(students)
    ensures x in existing ==> SplitInto(students + [x], existing, added, skipped + 1)
    ensures x !in existing ==> SplitInto(students + [x], existing, added + [x], skipped)
  {
    var was := S.ToSet(students);
    assert S.ToSet(students + [x]) == was + {x};
    if x in existing {
      assert (was + {x}) * existing == was * existing + {x};
      assert (was + {x}) - existing == was - existing;
    } else {
      assert (was + {x}) * existing == was * existing;
      assert S.ToSet(added + [x]) == S.ToSet(added) + {x} == (was + {x}) - existing;
      assert forall i | 0 <= i < |added| :: added[i] in S.ToSet(added);
    }
  }

  lemma NewMember(students: seq<Id>, k: nat)
    requires S.Distinct(students) && k < |students|
    ensures students[k] !in S.ToSet(students[..k])
  {
  }
}
