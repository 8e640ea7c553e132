/** The tables behind the schedule and the read-only checks that guard every write.

    A table is a sequence and an id is a position in it: lesson and event rows are never
    removed (cancelling and deleting only change a status).  Instants are milliseconds of
    Polish local time, so a calendar day is `DAY_MS` long. */
module Schedule {
  import opened Chronology
  import opened TimeWindows

  const MINUTE_MS: int := 60_000
  const DAY_MINUTES: int := 24 * 60
  const DAY_MS: int := DAY_MINUTES * MINUTE_MS

  type Id = nat

  datatype Result<+T> = Ok(value: T) | Err(error: Error)

  datatype Error =
    | NotFound | BadRequest | Stale
    | StudentBusy | InstructorBusy | VehicleBusy | ParticipantBusy | NoVehicleAvailable
    | OutsideInstructorHours | CourseLimitExceeded | CapacityExceeded | CourseInUse

  datatype LessonStatus = Scheduled | Completed | Cancelled
  datatype EventStatus = Planned | Done | NoShow | EventCancelled
  datatype EventKind = Drive | Theory
  datatype CourseKind = TheoryGroup | Practical | Extra

  datatype Lesson = Lesson(course: Id, student: Id, instructor: Id, vehicle: Option<Id>, practice: bool,
                           span: Window, status: LessonStatus, deleted: bool)

  datatype Event = Event(instructor: Id, course: Option<Id>, kind: EventKind, span: Window,
                         vehicle: Option<Id>, capacity: Option<nat>, active: bool, status: EventStatus,
                         participants: set<Id>)

  datatype Course = Course(kind: CourseKind, totalHours: nat, enrolled: nat, active: bool, deleted: bool)

  datatype Block = Block(instructor: Id, span: Window)

  /** The columns of `school_settings` that the checks read. */
  datatype Settings = Settings(practiceMin: int, practiceMax: int, theoryMin: int, theoryMax: int,
                               allowShortFinal: bool, minFinal: int)

  /** `hours` gives the working window (minutes of the day) of an instructor on a day; a
      leave, a day off or a day without a schedule has no entry. */
  datatype Schedule = Schedule(lessons: seq<Lesson>, events: seq<Event>, courses: map<Id, Course>,
                               hours: map<(Id, int), Window>, blocks: seq<Block>, settings: Option<Settings>)

  predicate ActiveLesson(l: Lesson) {
    l.status != Cancelled
  }

  predicate ActiveEvent(e: Event) {
    e.active && e.status != EventCancelled
  }

  // ---------------------------------------------------------------- durations

  function RoundMinutes(span: Window): int {
    (span.end - span.start + MINUTE_MS / 2) / MINUTE_MS
  }

  /** The allowed duration in minutes; `theory` is the kind of theory events. */
  function DurationLimits(settings: Option<Settings>, theory: bool): Window {
    if theory then
      match settings case None => Window(45, 90) case Some(c) => Window(c.theoryMin, c.theoryMax)
    else
      match settings case None => Window(60, 120) case Some(c) => Window(c.practiceMin, c.practiceMax)
  }

  predicate DurationAllowed(settings: Option<Settings>, theory: bool, span: Window) {
    var duration, limits := span.end - span.start, DurationLimits(settings, theory);
    duration > 0 && limits.start * MINUTE_MS <= duration <= limits.end * MINUTE_MS
  }

  // ---------------------------------------------------------------- package of a course

  predicate InPackage(l: Lesson, course: Id, student: Id) {
    l.course == course && l.student == student && l.practice && !l.deleted && ActiveLesson(l)
  }

  function BookedMinutes(lessons: seq<Lesson>, course: Id, student: Id, except: Option<nat>): int {
    if lessons == [] then 0
    else
      var n := |lessons| - 1;
      BookedMinutes(lessons[..n], course, student, except)
      + if InPackage(lessons[n], course, student) && except != Some(n) then RoundMinutes(lessons[n].span) else 0
  }

  function RemainingMinutes(s: Schedule, course: Id, student: Id, totalHours: nat, except: Option<nat>): int {
    Max(0, totalHours * 60 - BookedMinutes(s.lessons, course, student, except))
  }

  function PackageError(s: Schedule, course: Id, student: Id, span: Window, except: Option<nat>): Option<Error>
    requires course in s.courses
  {
    var c := s.courses[course];
    if c.kind == TheoryGroup then None
    else if RoundMinutes(span) <= 0 then Some(BadRequest)
    else if RoundMinutes(span) > RemainingMinutes(s, course, student, c.totalHours, except)
    then Some(CourseLimitExceeded)
    else None
  }

  /** The REMAINING_PACKAGE mode: one short lesson that uses up the package. */
  function FinalLessonError(s: Schedule, course: Id, student: Id, span: Window): Option<Error>
    requires course in s.courses
  {
    var duration, limits := span.end - span.start, DurationLimits(s.settings, false);
    var remaining := RemainingMinutes(s, course, student, s.courses[course].totalHours, None);
    var minFinal := match s.settings case None => 30 case Some(c) => c.minFinal;
    if duration != remaining * MINUTE_MS then Some(CourseLimitExceeded)
    else if (s.settings.Some? && !s.settings.value.allowShortFinal) || remaining < minFinal
            || remaining >= limits.start || remaining > limits.end
    then Some(BadRequest)
    else None
  }

  // ---------------------------------------------------------------- conflicts

  predicate LessonTakes(s: Schedule, i: nat, span: Window, except: Option<nat>) {
    i < |s.lessons| && except != Some(i) && ActiveLesson(s.lessons[i]) && Overlaps(s.lessons[i].span, span)
  }

  predicate EventTakes(s: Schedule, i: nat, span: Window, except: Option<nat>) {
    i < |s.events| && except != Some(i) && ActiveEvent(s.events[i]) && Overlaps(s.events[i].span, span)
  }

  predicate StudentHasLesson(s: Schedule, student: Id, span: Window, except: Option<nat>) {
    exists i | 0 <= i < |s.lessons| :: LessonTakes(s, i, span, except) && s.lessons[i].student == student
  }

  predicate StudentHasEvent(s: Schedule, student: Id, span: Window, except: Option<nat>) {
    exists i | 0 <= i < |s.events| :: EventTakes(s, i, span, except) && student in s.events[i].participants
  }

  predicate InstructorHasLesson(s: Schedule, instructor: Id, span: Window, except: Option<nat>) {
    exists i | 0 <= i < |s.lessons| :: LessonTakes(s, i, span, except) && s.lessons[i].instructor == instructor
  }

  predicate InstructorHasEvent(s: Schedule, instructor: Id, span: Window, except: Option<nat>) {
    exists i | 0 <= i < |s.events| :: EventTakes(s, i, span, except) && s.events[i].instructor == instructor
  }

  predicate VehicleHasLesson(s: Schedule, vehicle: Id, span: Window, except: Option<nat>) {
    exists i | 0 <= i < |s.lessons| :: LessonTakes(s, i, span, except) && s.lessons[i].vehicle == Some(vehicle)
  }

  predicate VehicleHasEvent(s: Schedule, vehicle: Id, span: Window, except: Option<nat>) {
    exists i | 0 <= i < |s.events| ::
      EventTakes(s, i, span, except) && s.events[i].kind == Drive && s.events[i].vehicle == Some(vehicle)
  }

  predicate VehicleTaken(s: Schedule, vehicle: Id, span: Window, exceptLesson: Option<nat>, exceptEvent: Option<nat>) {
    VehicleHasLesson(s, vehicle, span, exceptLesson) || VehicleHasEvent(s, vehicle, span, exceptEvent)
  }

  // ---------------------------------------------------------------- instructor hours

  function DayOf(t: int): int {
    t / DAY_MS
  }

  function DayRange(day: int): Window {
    Window(day * DAY_MS, (day + 1) * DAY_MS)
  }

  function MinuteOfDay(t: int): int {
    (t % DAY_MS) / MINUTE_MS
  }

  /** A row's minutes on a day, clipped at midnight on either side. */
  function TimeWindowFromDates(row: Window, day: Window): Window {
    Window(if row.start <= day.start then 0 else MinuteOfDay(row.start),
           if row.end >= day.end then DAY_MINUTES else MinuteOfDay(row.end))
  }

  function LessonRows(lessons: seq<Lesson>, instructor: Id, except: Option<nat>): seq<Window> {
    if lessons == [] then []
    else
      var n := |lessons| - 1;
      LessonRows(lessons[..n], instructor, except)
      + if lessons[n].instructor == instructor && ActiveLesson(lessons[n]) && except != Some(n)
        then [lessons[n].span] else []
  }

  function EventRows(events: seq<Event>, instructor: Id, except: Option<nat>): seq<Window> {
    if events == [] then []
    else
      var n := |events| - 1;
      EventRows(events[..n], instructor, except)
      + if events[n].instructor == instructor && ActiveEvent(events[n]) && except != Some(n)
        then [events[n].span] else []
  }

  function BlockRows(blocks: seq<Block>, instructor: Id): seq<Window> {
    if blocks == [] then []
    else
      var n := |blocks| - 1;
      BlockRows(blocks[..n], instructor) + if blocks[n].instructor == instructor then [blocks[n].span] else []
  }

  /** The rows that meet the day, as minutes of that day. */
  function OnDay(rows: seq<Window>, day: Window): seq<Window> {
    if rows == [] then []
    else
      var n := |rows| - 1;
      OnDay(rows[..n], day) + if Overlaps(rows[n], day) then [TimeWindowFromDates(rows[n], day)] else []
  }

  function InstructorRows(s: Schedule, instructor: Id, exceptEvent: Option<nat>,
                          exceptLesson: Option<nat>): seq<Window> {
    BlockRows(s.blocks, instructor)
    + LessonRows(s.lessons, instructor, exceptLesson)
    + EventRows(s.events, instructor, exceptEvent)
  }

  /** The free windows of an instructor on a day; nothing on a day without working hours. */
  function DayWindows(s: Schedule, instructor: Id, day: int, exceptEvent: Option<nat>, exceptLesson: Option<nat>)
    : Option<seq<Window>>
  {
    if (instructor, day) !in s.hours then None
    else Some(Subtract(s.hours[(instructor, day)],
                       OnDay(InstructorRows(s, instructor, exceptEvent, exceptLesson), DayRange(day))))
  }

  function HoursError(s: Schedule, instructor: Id, span: Window, exceptEvent: Option<nat>, exceptLesson: Option<nat>)
    : Option<Error>
  {
    if span.start >= span.end then Some(BadRequest)
    else if DayOf(span.start) != DayOf(span.end) then Some(BadRequest)
    else match DayWindows(s, instructor, DayOf(span.start), exceptEvent, exceptLesson)
      case None => Some(OutsideInstructorHours)
      case Some(free) =>
        if Fits(free, Window(MinuteOfDay(span.start), MinuteOfDay(span.end))) then None
        else Some(OutsideInstructorHours)
  }

  // ---------------------------------------------------------------- checks of a write

  /** The checks on a lesson's student, course package and instructor. */
  function LessonWindowError(s: Schedule, course: Id, student: Id, instructor: Id, span: Window, except: Option<nat>)
    : Option<Error>
    requires course in s.courses
  {
    if StudentHasLesson(s, student, span, except) || StudentHasEvent(s, student, span, None) then Some(StudentBusy)
    else if PackageError(s, course, student, span, except).Some? then PackageError(s, course, student, span, except)
    else if InstructorHasLesson(s, instructor, span, except) || InstructorHasEvent(s, instructor, span, None)
    then Some(InstructorBusy)
    else HoursError(s, instructor, span, None, except)
  }

  /** A candidate participant of event `event` has another commitment in the window. */
  predicate ParticipantTaken(s: Schedule, event: Option<nat>, student: Id, span: Window) {
    StudentHasLesson(s, student, span, None) || StudentHasEvent(s, student, span, event)
  }

  function EventWindowError(s: Schedule, instructor: Id, span: Window, event: Option<nat>, participants: set<Id>)
    : Option<Error>
  {
    if InstructorHasLesson(s, instructor, span, None) || InstructorHasEvent(s, instructor, span, event)
    then Some(InstructorBusy)
    else if HoursError(s, instructor, span, event, None).Some? then HoursError(s, instructor, span, event, None)
    else if exists p :: p in participants && ParticipantTaken(s, event, p, span) then Some(ParticipantBusy)
    else None
  }

  // ---------------------------------------------------------------- writes

  /** A manager names the vehicle; a self-booking takes one of the school's vehicles that are
      usable by the instructor for the course, the school's default vehicle first. */
  datatype VehicleChoice =
    | Named(vehicle: Id)
    | AnyOf(candidates: seq<Id>, preferred: Option<Id>, usable: set<Id>, remainingPackage: bool)

  function Others(candidates: seq<Id>, preferred: Id): seq<Id> {
    if candidates == [] then []
    else (if candidates[0] == preferred then [] else [candidates[0]]) + Others(candidates[1..], preferred)
  }

  function PreferredFirst(candidates: seq<Id>, preferred: Option<Id>): seq<Id> {
    if preferred.Some? && preferred.value in candidates
    then [preferred.value] + Others(candidates, preferred.value)
    else candidates
  }

  function FirstFree(s: Schedule, candidates: seq<Id>, usable: set<Id>, span: Window): Option<Id> {
    if candidates == [] then None
    else if candidates[0] in usable && !VehicleTaken(s, candidates[0], span, None, None) then Some(candidates[0])
    else FirstFree(s, candidates[1..], usable, span)
  }

  function ChooseVehicle(s: Schedule, choice: VehicleChoice, span: Window): Result<Id> {
    match choice
    case Named(v) => if VehicleTaken(s, v, span, None, None) then Err(VehicleBusy) else Ok(v)
    case AnyOf(candidates, preferred, usable, _) =>
      match FirstFree(s, PreferredFirst(candidates, preferred), usable, span)
      case None => Err(NoVehicleAvailable)
      case Some(v) => Ok(v)
  }

  function BookingError(s: Schedule, course: Id, student: Id, instructor: Id, span: Window, choice: VehicleChoice)
    : Option<Error>
  {
    if course !in s.courses || s.courses[course].deleted || !s.courses[course].active then Some(NotFound)
    else if choice.AnyOf? && s.courses[course].kind == TheoryGroup then Some(BadRequest)
    else if choice.AnyOf? && choice.remainingPackage && FinalLessonError(s, course, student, span).Some?
    then FinalLessonError(s, course, student, span)
    else if !(choice.AnyOf? && choice.remainingPackage) && !DurationAllowed(s.settings, false, span)
    then Some(BadRequest)
    else LessonWindowError(s, course, student, instructor, span, None)
  }

  /** Books a lesson and returns the vehicle with the new tables. */
  function BookLesson(s: Schedule, course: Id, student: Id, instructor: Id, span: Window, choice: VehicleChoice)
    : Result<Schedule>
  {
    var error := BookingError(s, course, student, instructor, span, choice);
    if error.Some? then Err(error.value)
    else match ChooseVehicle(s, choice, span)
      case Err(e) => Err(e)
      case Ok(v) =>
        var row := Lesson(course, student, instructor, Some(v), true, span, Scheduled, false);
        Ok(s.(lessons := s.lessons + [row]))
  }

  /** The lesson as the editor saw it. */
  datatype SeenLesson = SeenLesson(instructor: Id, span: Window, vehicle: Option<Id>)

  datatype LessonPatch = LessonPatch(start: Option<int>, end: Option<int>, instructor: Option<Id>,
                                     vehicle: Option<Id>, seen: Option<SeenLesson>)

  function Or<T>(o: Option<T>, default: T): T {
    match o case None => default case Some(v) => v
  }

  function Patched(l: Lesson, p: LessonPatch): Lesson {
    l.(span := Window(Or(p.start, l.span.start), Or(p.end, l.span.end)),
       instructor := Or(p.instructor, l.instructor),
       vehicle := if p.vehicle.Some? then p.vehicle else l.vehicle)
  }

  function EditableError(l: Lesson, p: LessonPatch, now: int): Option<Error> {
    var m := Patched(l, p);
    var moved := m.span != l.span || m.instructor != l.instructor;
    if l.status != Scheduled || l.span.end <= now then Some(BadRequest)
    else if m.vehicle.None? then Some(BadRequest)
    else if m.instructor != l.instructor && !l.practice then Some(BadRequest)
    else if p.instructor.Some? && p.seen.None? then Some(Stale)
    else if p.seen.Some? && p.seen.value != SeenLesson(l.instructor, l.span, l.vehicle) then Some(Stale)
    else if moved && (l.span.start <= now || m.span.start <= now) then Some(BadRequest)
    else None
  }

  /** The checks on the merged row, each run only when what it guards has changed. */
  function MoveError(s: Schedule, i: nat, m: Lesson): Option<Error>
    requires i < |s.lessons| && m.course in s.courses && m.vehicle.Some?
  {
    var l := s.lessons[i];
    if m.span != l.span && !DurationAllowed(s.settings, false, m.span) then Some(BadRequest)
    else if (m.span != l.span || m.instructor != l.instructor)
            && LessonWindowError(s, m.course, m.student, m.instructor, m.span, Some(i)).Some?
    then LessonWindowError(s, m.course, m.student, m.instructor, m.span, Some(i))
    else if VehicleTaken(s, m.vehicle.value, m.span, Some(i), None) then Some(VehicleBusy)
    else None
  }

  function UpdateLesson(s: Schedule, i: nat, p: LessonPatch, now: int): Result<Schedule> {
    if i >= |s.lessons| || s.lessons[i].deleted || s.lessons[i].course !in s.courses then Err(NotFound)
    else
      var l := s.lessons[i];
      var m := Patched(l, p);
      var refusal := EditableError(l, p, now);
      if refusal.Some? then Err(refusal.value)
      else if m == l then Ok(s)
      else
        var error := MoveError(s, i, m);
        if error.Some? then Err(error.value) else Ok(s.(lessons := s.lessons[i := m]))
  }

  /** A manager cancels any lesson; a student (`canceller`) only an own practice lesson. */
  function CancelLesson(s: Schedule, i: nat, canceller: Option<Id>, now: int): Result<Schedule> {
    if i >= |s.lessons| || s.lessons[i].deleted then Err(NotFound)
    else
      var l := s.lessons[i];
      if canceller.Some? && (canceller.value != l.student || !l.practice) then Err(BadRequest)
      else if l.status != Scheduled || l.span.start <= now then Err(BadRequest)
      else Ok(s.(lessons := s.lessons[i := l.(status := Cancelled)]))
  }

  function CreateEvent(s: Schedule, instructor: Id, course: Option<Id>, kind: EventKind, span: Window,
                       vehicle: Option<Id>, capacity: Option<nat>): Result<Schedule>
  {
    if kind == Drive && vehicle.None? then Err(BadRequest)
    else if !DurationAllowed(s.settings, kind == Theory, span) then Err(BadRequest)
    else
      var error := EventWindowError(s, instructor, span, None, {});
      if error.Some? then Err(error.value)
      else if kind == Drive && VehicleTaken(s, vehicle.value, span, None, None) then Err(VehicleBusy)
      else
        var row := Event(instructor, course, kind, span, if kind == Drive then vehicle else None,
                         capacity, true, Planned, {});
        Ok(s.(events := s.events + [row]))
  }

  datatype Field<+T> = Keep | Set(value: T)

  datatype EventPatch = EventPatch(instructor: Option<Id>, kind: Option<EventKind>, status: Option<EventStatus>,
                                   start: Option<int>, end: Option<int>,
                                   vehicle: Field<Option<Id>>, capacity: Field<Option<nat>>)

  /** An event request reads the row of its event before its transaction opens.  `seen` is
      what it read; the transaction works on the tables as they are then, so the row may have
      changed in between.  The participants are read inside the transaction.

      The merged values, before the vehicle of a theory event is dropped. */
  function Merged(seen: Event, p: EventPatch): Event {
    seen.(instructor := Or(p.instructor, seen.instructor),
          kind := Or(p.kind, seen.kind),
          status := Or(p.status, seen.status),
          span := Window(Or(p.start, seen.span.start), Or(p.end, seen.span.end)),
          vehicle := if p.vehicle.Set? then p.vehicle.value else seen.vehicle,
          capacity := if p.capacity.Set? then p.capacity.value else seen.capacity)
  }

  /** Every merged column is written back; participants, course and the active flag stay. */
  function Written(row: Event, m: Event): Event {
    row.(instructor := m.instructor, kind := m.kind, status := m.status, span := m.span,
         vehicle := if m.kind == Drive then m.vehicle else None, capacity := m.capacity)
  }

  function EventChangeError(s: Schedule, i: nat, seen: Event, m: Event, kindGiven: bool): Option<Error>
    requires i < |s.events|
  {
    var participants := s.events[i].participants;
    var timed := m.span != seen.span || m.instructor != seen.instructor;
    if m.span.start >= m.span.end then Some(BadRequest)
    else if m.kind == Drive && m.vehicle.None? then Some(BadRequest)
    else if (m.span != seen.span || kindGiven) && !DurationAllowed(s.settings, m.kind == Theory, m.span)
    then Some(BadRequest)
    else if timed && EventWindowError(s, m.instructor, m.span, Some(i), participants).Some?
    then EventWindowError(s, m.instructor, m.span, Some(i), participants)
    else if m.kind == Drive && (timed || m.vehicle != seen.vehicle || m.kind != seen.kind)
            && VehicleTaken(s, m.vehicle.value, m.span, None, Some(i))
    then Some(VehicleBusy)
    else if m.capacity.Some? && m.capacity.value < |participants| then Some(CapacityExceeded)
    else None
  }

  function UpdateEvent(s: Schedule, i: nat, seen: Event, p: EventPatch): Result<Schedule> {
    if i >= |s.events| || !seen.active then Err(NotFound)
    else
      var m := Merged(seen, p);
      var error := EventChangeError(s, i, seen, m, p.kind.Some?);
      if error.Some? then Err(error.value) else Ok(s.(events := s.events[i := Written(s.events[i], m)]))
  }

  function DeleteEvent(s: Schedule, i: nat, seen: Event): Result<Schedule> {
    if i >= |s.events| then Err(NotFound)
    else if !seen.active then Err(BadRequest)
    else Ok(s.(events := s.events[i := s.events[i].(active := false)]))
  }

  /** One status for the events that were found active; no conflict is checked. */
  function SetEventStatus(s: Schedule, ids: set<nat>, status: EventStatus): Schedule {
    s.(events := seq(|s.events|, i requires 0 <= i < |s.events| =>
         if i in ids then s.events[i].(status := status) else s.events[i]))
  }

  predicate Distinct(ids: seq<Id>) {
    forall i, j | 0 <= i < j < |ids| :: ids[i] != ids[j]
  }

  function ToSet(ids: seq<Id>): set<Id> {
    set x | x in ids
  }

  function TheoryEventError(s: Schedule, i: nat, seen: Event): Option<Error> {
    if i >= |s.events| || !seen.active then Some(NotFound)
    else if seen.kind != Theory then Some(BadRequest)
    else None
  }

  /** Window and capacity are those read before the transaction. */
  function AssignStudents(s: Schedule, i: nat, seen: Event, students: seq<Id>): Result<Schedule> {
    if !Distinct(students) then Err(BadRequest)
    else if TheoryEventError(s, i, seen).Some? then Err(TheoryEventError(s, i, seen).value)
    else
      var row := s.events[i];
      var added := ToSet(students) - row.participants;
      if seen.capacity.Some? && |row.participants| + |added| > seen.capacity.value then Err(CapacityExceeded)
      else if exists p :: p in added && ParticipantTaken(s, Some(i), p, seen.span) then Err(StudentBusy)
      else Ok(s.(events := s.events[i := row.(participants := row.participants + added)]))
  }

  function ReplaceStudents(s: Schedule, i: nat, seen: Event, students: seq<Id>): Result<Schedule> {
    if !Distinct(students) then Err(BadRequest)
    else if TheoryEventError(s, i, seen).Some? then Err(TheoryEventError(s, i, seen).value)
    else if seen.capacity.Some? && |students| > seen.capacity.value then Err(CapacityExceeded)
    else if exists p :: p in students && ParticipantTaken(s, Some(i), p, seen.span) then Err(StudentBusy)
    else Ok(s.(events := s.events[i := s.events[i].(participants := ToSet(students))]))
  }

  function RemoveStudent(s: Schedule, i: nat, seen: Event, student: Id): Result<Schedule> {
    if TheoryEventError(s, i, seen).Some? then Err(TheoryEventError(s, i, seen).value)
    else if student !in s.events[i].participants then Err(NotFound)
    else Ok(s.(events := s.events[i := s.events[i].(participants := s.events[i].participants - {student})]))
  }

  predicate CourseUsed(s: Schedule, course: Id)
    requires course in s.courses
  {
    || s.courses[course].enrolled > 0
    || (exists i | 0 <= i < |s.lessons| :: s.lessons[i].course == course && !s.lessons[i].deleted)
    || (exists i | 0 <= i < |s.events| :: s.events[i].course == Some(course))
  }

  function PatchCourse(s: Schedule, course: Id, kind: Option<CourseKind>, totalHours: Option<nat>): Result<Schedule> {
    if course !in s.courses || s.courses[course].deleted then Err(NotFound)
    else
      var c := s.courses[course];
      var next := c.(kind := Or(kind, c.kind), totalHours := Or(totalHours, c.totalHours));
      if next != c && CourseUsed(s, course) then Err(CourseInUse)
      else Ok(s.(courses := s.courses[course := next]))
  }

  // ---------------------------------------------------------------- runs

  datatype Op =
    | OpBook(course: Id, student: Id, instructor: Id, span: Window, choice: VehicleChoice)
    | OpUpdateLesson(lesson: nat, lessonPatch: LessonPatch, now: int)
    | OpCancel(lesson: nat, canceller: Option<Id>, now: int)
    | OpCreateEvent(instructor: Id, eventCourse: Option<Id>, kind: EventKind, span: Window,
                    vehicle: Option<Id>, capacity: Option<nat>)
    | OpUpdateEvent(event: nat, seen: Event, eventPatch: EventPatch)
    | OpDeleteEvent(event: nat, seen: Event)
    | OpSetStatus(events: set<nat>, status: EventStatus)
    | OpAssign(event: nat, seen: Event, students: seq<Id>)
    | OpReplace(event: nat, seen: Event, students: seq<Id>)
    | OpRemove(event: nat, seen: Event, student: Id)
    | OpPatchCourse(course: Id, courseKind: Option<CourseKind>, totalHours: Option<nat>)
    | OpNewCourse(course: Id, newCourse: Course)
    | OpSettings(hours: map<(Id, int), Window>, blocks: seq<Block>, settings: Option<Settings>)

  function Apply(s: Schedule, op: Op): Result<Schedule> {
    match op
    case OpBook(course, student, instructor, span, choice) => BookLesson(s, course, student, instructor, span, choice)
    case OpUpdateLesson(i, p, now) => UpdateLesson(s, i, p, now)
    case OpCancel(i, canceller, now) => CancelLesson(s, i, canceller, now)
    case OpCreateEvent(instructor, course, kind, span, vehicle, capacity) =>
      CreateEvent(s, instructor, course, kind, span, vehicle, capacity)
    case OpUpdateEvent(i, seen, p) => UpdateEvent(s, i, seen, p)
    case OpDeleteEvent(i, seen) => DeleteEvent(s, i, seen)
    case OpSetStatus(ids, status) => Ok(SetEventStatus(s, ids, status))
    case OpAssign(i, seen, students) => AssignStudents(s, i, seen, students)
    case OpReplace(i, seen, students) => ReplaceStudents(s, i, seen, students)
    case OpRemove(i, seen, student) => RemoveStudent(s, i, seen, student)
    case OpPatchCourse(course, kind, totalHours) => PatchCourse(s, course, kind, totalHours)
    case OpNewCourse(course, c) =>
      if course in s.courses then Err(BadRequest) else Ok(s.(courses := s.courses[course := c]))
    case OpSettings(hours, blocks, settings) => Ok(s.(hours := hours, blocks := blocks, settings := settings))
  }

  /** A failed write changes nothing. */
  function After(s: Schedule, op: Op): Schedule {
    match Apply(s, op) case Ok(t) => t case Err(_) => s
  }

  function Empty(): Schedule {
    Schedule([], [], map[], map[], [], None)
  }

  function Run(ops: seq<Op>): Schedule {
    if ops == [] then Empty() else After(Run(ops[..|ops| - 1]), ops[|ops| - 1])
  }
}
