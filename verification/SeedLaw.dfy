/** What the planner promises about requests and the slots they get, whatever its reservations
    look like inside: requests that share an instructor, a student or a vehicle get slots apart
    from each other, each the first one left on its grid. */
module SeedLaw {
  import opened Chronology
  import opened TimeWindows
  import opened AvailabilityOptions
  import opened SeedPlanner

  predicate Share(a: Request, b: Request) {
    || a.instructor == b.instructor
    || (exists x :: x in a.students && x in b.students)
    || (a.vehicle.Some? && a.vehicle == b.vehicle)
  }

  predicate Apart(v: Window, w: Window) {
    v.end <= w.start || w.end <= v.start
  }

  /** The answers to a sequence of calls, one each. */
  function Answers(calendars: map<Id, Calendar>, clock: Clock, requests: seq<Request>): (r: seq<Outcome>)
    ensures |r| == |requests|
  {
    if requests == [] then []
    else
      var n := |requests| - 1;
      Answers(calendars, clock, requests[..n])
      + [ReserveOutcome(AfterAll(calendars, clock, requests[..n]), calendars, clock, requests[n])]
  }

  // ---------------------------------------------------------------- what is reserved

  /** The slots of the calls that used a resource, in the order of the calls. */
  function SlotsOf(requests: seq<Request>, answers: seq<Outcome>, key: Key): seq<Window>
    requires |requests| == |answers|
  {
    if requests == [] then []
    else
      var n := |requests| - 1;
      SlotsOf(requests[..n], answers[..n], key)
      + if answers[n].Reserved? && Uses(requests[n], key) then [answers[n].slot] else []
  }

  /** The reservations are the slots that were answered. */
  ghost predicate Matches(reservations: Reservations, requests: seq<Request>, answers: seq<Outcome>) {
    |requests| == |answers| && forall key: Key :: Held(reservations, key) == SlotsOf(requests, answers, key)
  }

  /** A reserved slot is added once to the instructor, to each student and to the vehicle of its
      request, and to nothing else; a refused call adds nothing. */
  lemma {:induction false} ReservationsAreSlots(calendars: map<Id, Calendar>, clock: Clock, requests: seq<Request>)
    ensures Matches(AfterAll(calendars, clock, requests), requests, Answers(calendars, clock, requests))
  {
    var reservations, answers := AfterAll(calendars, clock, requests), Answers(calendars, clock, requests);
    if requests != [] {
      var n := |requests| - 1;
      var before := AfterAll(calendars, clock, requests[..n]);
      ReservationsAreSlots(calendars, clock, requests[..n]);
      assert answers[..n] == Answers(calendars, clock, requests[..n]);
      forall key ensures Held(reservations, key) == SlotsOf(requests, answers, key) {
        if answers[n].Reserved? {
          UsersHold(before, requests[n], answers[n].slot, key);
        }
      }
    }
  }

  /** Call `j` reserved the slot for a request that uses the resource. */
  predicate GotFor(request: Request, answer: Outcome, key: Key, w: Window) {
    Uses(request, key) && answer == Reserved(w)
  }

  lemma {:induction false} SlotsAreGot(requests: seq<Request>, answers: seq<Outcome>, key: Key, w: Window)
    requires |requests| == |answers|
    ensures w in SlotsOf(requests, answers, key) <==>
            exists j :: 0 <= j < |requests| && GotFor(requests[j], answers[j], key, w)
  {
    if requests != [] {
      var n := |requests| - 1;
      SlotsAreGot(requests[..n], answers[..n], key, w);
      assert forall j | 0 <= j < n :: requests[..n][j] == requests[j] && answers[..n][j] == answers[j];
    }
  }

  // ---------------------------------------------------------------- no shared overlap

  /** The call got a slot, its request shares something with this one, and the slot meets the window. */
  predicate Meets(earlier: Request, answer: Outcome, request: Request, w: Window) {
    answer.Reserved? && Share(earlier, request) && !Apart(answer.slot, w)
  }

  /** An earlier call got a slot in the way. */
  ghost predicate TakenBy(requests: seq<Request>, answers: seq<Outcome>, request: Request, w: Window)
    requires |requests| == |answers|
  {
    exists j :: 0 <= j < |requests| && Meets(requests[j], answers[j], request, w)
  }

  lemma SharedKey(a: Request, b: Request)
    ensures Share(a, b) <==> exists key :: Uses(a, key) && Uses(b, key)
  {
    if a.instructor == b.instructor {
      assert Uses(a, InstructorKey(a.instructor)) && Uses(b, InstructorKey(a.instructor));
    }
    if x :| x in a.students && x in b.students {
      assert Uses(a, StudentKey(x)) && Uses(b, StudentKey(x));
    }
    if a.vehicle.Some? && a.vehicle == b.vehicle {
      assert Uses(a, VehicleKey(a.vehicle.value)) && Uses(b, VehicleKey(a.vehicle.value));
    }
  }

  lemma ConflictIsTaken(reservations: Reservations, requests: seq<Request>, answers: seq<Outcome>, request: Request,
                        w: Window)
    requires Matches(reservations, requests, answers)
    ensures Conflicts(reservations, ResourceKeys(request), w) <==> TakenBy(requests, answers, request, w)
  {
    var keys := ResourceKeys(request);
    if Conflicts(reservations, keys, w) {
      var key :| key in keys && exists r | r in Held(reservations, key) :: Overlaps(r, w);
      var r :| r in Held(reservations, key) && Overlaps(r, w);
      KeysAreUsed(request, key);
      SlotsAreGot(requests, answers, key, r);
      var j :| 0 <= j < |requests| && GotFor(requests[j], answers[j], key, r);
      SharedKey(requests[j], request);
      assert Meets(requests[j], answers[j], request, w);
    }
    if j :| 0 <= j < |requests| && Meets(requests[j], answers[j], request, w) {
      SharedKey(requests[j], request);
      var key :| Uses(requests[j], key) && Uses(request, key);
      KeysAreUsed(request, key);
      assert GotFor(requests[j], answers[j], key, answers[j].slot);
      SlotsAreGot(requests, answers, key, answers[j].slot);
      assert key in keys && answers[j].slot in Held(reservations, key) && Overlaps(answers[j].slot, w);
    }
  }

  // ---------------------------------------------------------------- the grid of a request

  /** The day's working window: none on a leave; the first exception of the date replaces the
      weekly hours, unless it closes the day; otherwise the first weekly row of that weekday. */
  ghost predicate OpenOn(calendar: Calendar, weekday: int, date: int, w: Window) {
    && (forall l | l in calendar.leaves :: date < l.first || l.last < date)
    && ((exists i :: FirstException(calendar.exceptions, date, i)
           && !calendar.exceptions[i].dayOff
           && calendar.exceptions[i].start == Some(w.start) && calendar.exceptions[i].end == Some(w.end))
        || ((forall e | e in calendar.exceptions :: e.date != date)
            && exists i :: FirstWeekly(calendar.weekly, weekday, i) && calendar.weekly[i].hours == w))
  }

  predicate FirstException(exceptions: seq<WorkingException>, date: int, i: int) {
    0 <= i < |exceptions| && exceptions[i].date == date && forall j | 0 <= j < i :: exceptions[j].date != date
  }

  predicate FirstWeekly(weekly: seq<Weekly>, weekday: int, i: int) {
    0 <= i < |weekly| && weekly[i].dayOfWeek == weekday && forall j | 0 <= j < i :: weekly[j].dayOfWeek != weekday
  }

  lemma {:induction false} WeeklyOnIsFirst(weekly: seq<Weekly>, weekday: int) returns (i: nat)
    ensures i <= |weekly| && forall j | 0 <= j < i :: weekly[j].dayOfWeek != weekday
    ensures i < |weekly| ==> weekly[i].dayOfWeek == weekday
    ensures WeeklyOn(weekly, weekday) == if i < |weekly| then Some(weekly[i].hours) else None
  {
    if weekly == [] || weekly[0].dayOfWeek == weekday {
      i := 0;
    } else {
      var k := WeeklyOnIsFirst(weekly[1..], weekday);
      i := k + 1;
      assert forall j | 0 < j < i :: weekly[j] == weekly[1..][j - 1];
    }
  }

  lemma WindowIsOpen(calendar: Calendar, clock: Clock, date: int, w: Window)
    ensures ResolveWindow(calendar, clock, date) == Some(w) <==> OpenOn(calendar, clock.weekday(date), date, w)
  {
    OnLeaveMeans(calendar.leaves, date);
    var e := ExceptionOnIsFirst(calendar.exceptions, date);
    var i := WeeklyOnIsFirst(calendar.weekly, clock.weekday(date));
    if e < |calendar.exceptions| {
      assert FirstException(calendar.exceptions, date, e);
      assert calendar.exceptions[e] in calendar.exceptions;
    }
    if i < |calendar.weekly| {
      assert FirstWeekly(calendar.weekly, clock.weekday(date), i);
    }
  }

  /** A slot the request may get: on one of 120 days, in that day's window, a whole number of steps
      after its start. */
  ghost predicate OnRequestGrid(calendar: Calendar, clock: Clock, request: Request, day: int, k: nat, w: Window,
                                slot: Window)
  {
    var date, minute := request.anchor + day, w.start + k * request.step;
    && 0 <= day < 120 && OpenOn(calendar, clock.weekday(date), date, w)
    && minute + request.duration <= w.end
    && slot == Window(clock.at(date, minute), clock.at(date, minute + request.duration))
  }

  ghost predicate RequestSlot(calendar: Calendar, clock: Clock, request: Request, day: int, slot: Window) {
    exists k: nat, w :: OnRequestGrid(calendar, clock, request, day, k, w, slot)
  }

  lemma GridSlotMeans(calendar: Calendar, clock: Clock, request: Request, day: int, slot: Window)
    requires request.step > 0
    ensures RequestSlot(calendar, clock, request, day, slot) <==>
            exists m :: GridSlot(calendar, clock, request, day, m)
                        && slot == SlotAt(clock, request.anchor + day, m, request.duration)
  {
    var date := request.anchor + day;
    if k: nat, w :| OnRequestGrid(calendar, clock, request, day, k, w, slot) {
      WindowIsOpen(calendar, clock, date, w);
      MultipleOf(k, request.step);
      assert GridSlot(calendar, clock, request, day, w.start + k * request.step);
    }
    if m :| GridSlot(calendar, clock, request, day, m) && slot == SlotAt(clock, date, m, request.duration) {
      var w := ResolveWindow(calendar, clock, date).value;
      WindowIsOpen(calendar, clock, date, w);
      var k := WholeSteps(m - w.start, request.step);
      assert OnRequestGrid(calendar, clock, request, day, k, w, slot);
    }
  }

  lemma WholeSteps(x: nat, step: int) returns (k: nat)
    requires step > 0 && Multiple(x, step)
    ensures x == k * step
  {
    k := x / step;
  }

  // ---------------------------------------------------------------- the law

  /** Every grid slot of the day is taken. */
  ghost predicate DayTaken(calendar: Calendar, clock: Clock, requests: seq<Request>, answers: seq<Outcome>,
                           request: Request, day: int)
    requires |requests| == |answers|
  {
    forall slot | RequestSlot(calendar, clock, request, day, slot) :: TakenBy(requests, answers, request, slot)
  }

  lemma FullIsTaken(reservations: Reservations, calendar: Calendar, clock: Clock, requests: seq<Request>,
                    answers: seq<Outcome>, request: Request, day: int)
    requires Matches(reservations, requests, answers) && request.step > 0
    requires Full(reservations, calendar, clock, request, day)
    ensures DayTaken(calendar, clock, requests, answers, request, day)
  {
    forall slot | RequestSlot(calendar, clock, request, day, slot) ensures TakenBy(requests, answers, request, slot) {
      GridSlotMeans(calendar, clock, request, day, slot);
      ConflictIsTaken(reservations, requests, answers, request, slot);
    }
  }

  /** The slot is on the grid of the first day that has one not taken. */
  ghost predicate FirstDaySlot(calendar: Calendar, clock: Clock, requests: seq<Request>, answers: seq<Outcome>,
                               request: Request, day: int, slot: Window)
    requires |requests| == |answers|
  {
    && RequestSlot(calendar, clock, request, day, slot) && !TakenBy(requests, answers, request, slot)
    && forall e | 0 <= e < day :: DayTaken(calendar, clock, requests, answers, request, e)
  }

  lemma FirstDayFound(reservations: Reservations, calendar: Calendar, clock: Clock, requests: seq<Request>,
                      answers: seq<Outcome>, request: Request, d: int, m: int, slot: Window)
    requires Matches(reservations, requests, answers) && request.step > 0
    requires ClearSlot(reservations, calendar, clock, request, d, m, slot)
    requires forall e | 0 <= e < d :: Full(reservations, calendar, clock, request, e)
    ensures FirstDaySlot(calendar, clock, requests, answers, request, d, slot)
  {
    GridSlotMeans(calendar, clock, request, d, slot);
    ConflictIsTaken(reservations, requests, answers, request, slot);
    forall e | 0 <= e < d ensures DayTaken(calendar, clock, requests, answers, request, e) {
      FullIsTaken(reservations, calendar, clock, requests, answers, request, e);
    }
  }

  /** The next call after these answers gets a slot of its grid that meets no earlier slot of a
      request sharing instructor, student or vehicle, on the first day that has one; it is refused
      exactly for a length or step that is not positive, an unknown instructor, or because all grid
      slots of its 120 days are taken. */
  ghost predicate AnsweredExactly(calendars: map<Id, Calendar>, clock: Clock, requests: seq<Request>,
                                  answers: seq<Outcome>, request: Request, answer: Outcome)
    requires |requests| == |answers|
  {
    if request.duration <= 0 then answer == Refused(NonPositiveDuration)
    else if request.instructor !in calendars then answer == Refused(MissingCalendar)
    else if request.step <= 0 then answer == Refused(NonPositiveStep)
    else
      var calendar := calendars[request.instructor];
      match answer
      case Refused(reason) =>
        reason == NoFreeSlot && forall d | 0 <= d < 120 :: DayTaken(calendar, clock, requests, answers, request, d)
      case Reserved(slot) => exists d :: FirstDaySlot(calendar, clock, requests, answers, request, d, slot)
  }

  lemma AnswerIsExact(reservations: Reservations, calendars: map<Id, Calendar>, clock: Clock, requests: seq<Request>,
                      answers: seq<Outcome>, request: Request)
    requires Matches(reservations, requests, answers)
    ensures AnsweredExactly(calendars, clock, requests, answers, request,
                            ReserveOutcome(reservations, calendars, clock, request))
  {
    if request.duration > 0 && request.instructor in calendars && request.step > 0 {
      var calendar, answer := calendars[request.instructor], ReserveOutcome(reservations, calendars, clock, request);
      ReserveIsExact(reservations, calendars, clock, request);
      if answer.Reserved? {
        var d, m :| ClearSlot(reservations, calendar, clock, request, d, m, answer.slot)
                    && forall e | 0 <= e < d :: Full(reservations, calendar, clock, request, e);
        FirstDayFound(reservations, calendar, clock, requests, answers, request, d, m, answer.slot);
      } else {
        forall d | 0 <= d < 120 ensures DayTaken(calendar, clock, requests, answers, request, d) {
          FullIsTaken(reservations, calendar, clock, requests, answers, request, d);
        }
      }
    }
  }

  lemma CallsAreExact(calendars: map<Id, Calendar>, clock: Clock, requests: seq<Request>, request: Request)
    ensures AnsweredExactly(calendars, clock, requests, Answers(calendars, clock, requests), request,
                            ReserveOutcome(AfterAll(calendars, clock, requests), calendars, clock, request))
  {
    ReservationsAreSlots(calendars, clock, requests);
    AnswerIsExact(AfterAll(calendars, clock, requests), calendars, clock, requests, Answers(calendars, clock, requests),
                  request);
  }

  lemma ExactAnswerIsApart(calendars: map<Id, Calendar>, clock: Clock, requests: seq<Request>, answers: seq<Outcome>,
                           request: Request, answer: Outcome, j: nat)
    requires |requests| == |answers| && AnsweredExactly(calendars, clock, requests, answers, request, answer)
    requires j < |requests| && Share(requests[j], request) && answers[j].Reserved? && answer.Reserved?
    ensures Apart(answers[j].slot, answer.slot)
  {
    assert !Meets(requests[j], answers[j], request, answer.slot);
  }

  /** So two requests that share an instructor, a student or a vehicle never get slots that overlap. */
  lemma SharingCallsAreApart(calendars: map<Id, Calendar>, clock: Clock, requests: seq<Request>, request: Request,
                             j: nat)
    requires j < |requests| && Share(requests[j], request)
    ensures var earlier := Answers(calendars, clock, requests)[j];
            var answer := ReserveOutcome(AfterAll(calendars, clock, requests), calendars, clock, request);
            earlier.Reserved? && answer.Reserved? ==> Apart(earlier.slot, answer.slot)
  {
    CallsAreExact(calendars, clock, requests, request);
    var answers := Answers(calendars, clock, requests);
    var answer := ReserveOutcome(AfterAll(calendars, clock, requests), calendars, clock, request);
    if answers[j].Reserved? && answer.Reserved? {
      ExactAnswerIsApart(calendars, clock, requests, answers, request, answer, j);
    }
  }

  // ---------------------------------------------------------------- the order within a day

  lemma {:induction false} StartsInOrder(first: int, latest: int, step: int)
    requires step > 0
    ensures forall i | 0 <= i < |Starts(first, latest, step)| :: Starts(first, latest, step)[i] == first + i * step
    ensures first + |Starts(first, latest, step)| * step > latest
    ensures Starts(first, latest, step) != [] ==> first + (|Starts(first, latest, step)| - 1) * step <= latest
    decreases latest - first
  {
    if first <= latest {
      var rest := Starts(first + step, latest, step);
      StartsInOrder(first + step, latest, step);
      assert forall i | 0 < i < |rest| + 1 :: Starts(first, latest, step)[i] == rest[i - 1];
      forall i | 0 <= i < |rest| + 1 ensures Starts(first, latest, step)[i] == first + i * step {
        if i > 0 {
          assert first + step + (i - 1) * step == first + i * step;
        }
      }
    }
  }

  /** The slot that starts `i` steps after the start of the day's window. */
  function StepSlot(clock: Clock, request: Request, date: int, w: Window, i: nat): Window {
    var minute := w.start + i * request.step;
    Window(clock.at(date, minute), clock.at(date, minute + request.duration))
  }

  /** Where the search of a day begins: at `|slotIndex|` counted around the `count` starts. */
  function Turned(slotIndex: int, k: nat, count: nat): nat
    requires count > 0
  {
    ((if slotIndex < 0 then -slotIndex else slotIndex) + k) % count
  }

  /** The slots of a day are tried from position `|slotIndex|` of its starts around; the one at
      `turn` is the first that is not taken. */
  ghost predicate FirstAround(clock: Clock, requests: seq<Request>, answers: seq<Outcome>, request: Request, date: int,
                              w: Window, count: nat, turn: nat, slot: Window)
    requires |requests| == |answers| && count > 0
  {
    && slot == StepSlot(clock, request, date, w, Turned(request.slotIndex, turn, count))
    && forall j | 0 <= j < turn ::
         TakenBy(requests, answers, request, StepSlot(clock, request, date, w, Turned(request.slotIndex, j, count)))
  }

  /** The day's window holds exactly `count` starts. */
  predicate StartsOfDay(request: Request, w: Window, count: nat) {
    && count > 0 && w.start + (count - 1) * request.step + request.duration <= w.end
    && w.end < w.start + count * request.step + request.duration
  }

  lemma StartsAreSteps(clock: Clock, request: Request, day: int, w: Window, starts: seq<int>, j: nat)
    requires request.step > 0 && starts == Starts(w.start, w.end - request.duration, request.step) && starts != []
    ensures SlotInRotation(clock, request, day, starts, j)
         == StepSlot(clock, request, request.anchor + day, w, Turned(request.slotIndex, j, |starts|))
  {
    StartsInOrder(w.start, w.end - request.duration, request.step);
    assert starts[Turned(request.slotIndex, j, |starts|)]
        == w.start + Turned(request.slotIndex, j, |starts|) * request.step;
  }

  lemma CountOfDay(request: Request, w: Window, starts: seq<int>)
    requires request.step > 0 && starts == Starts(w.start, w.end - request.duration, request.step) && starts != []
    ensures StartsOfDay(request, w, |starts|)
  {
    StartsInOrder(w.start, w.end - request.duration, request.step);
  }

  lemma SkippedIsTaken(reservations: Reservations, clock: Clock, requests: seq<Request>, answers: seq<Outcome>,
                       request: Request, day: int, w: Window, starts: seq<int>, j: nat)
    requires Matches(reservations, requests, answers) && request.step > 0
    requires starts == Starts(w.start, w.end - request.duration, request.step) && starts != []
    requires Conflicts(reservations, ResourceKeys(request), SlotInRotation(clock, request, day, starts, j))
    ensures TakenBy(requests, answers, request,
                    StepSlot(clock, request, request.anchor + day, w, Turned(request.slotIndex, j, |starts|)))
  {
    StartsAreSteps(clock, request, day, w, starts, j);
    ConflictIsTaken(reservations, requests, answers, request, SlotInRotation(clock, request, day, starts, j));
  }

  lemma FirstAroundStarts(reservations: Reservations, clock: Clock, requests: seq<Request>, answers: seq<Outcome>,
                          request: Request, day: int, w: Window, starts: seq<int>, turn: nat, slot: Window)
    requires Matches(reservations, requests, answers) && request.step > 0
    requires starts == Starts(w.start, w.end - request.duration, request.step) && starts != []
    requires slot == SlotInRotation(clock, request, day, starts, turn)
    requires forall j | 0 <= j < turn ::
               Conflicts(reservations, ResourceKeys(request), SlotInRotation(clock, request, day, starts, j))
    ensures FirstAround(clock, requests, answers, request, request.anchor + day, w, |starts|, turn, slot)
  {
    StartsAreSteps(clock, request, day, w, starts, turn);
    forall j | 0 <= j < turn
      ensures TakenBy(requests, answers, request,
                      StepSlot(clock, request, request.anchor + day, w, Turned(request.slotIndex, j, |starts|)))
    {
      SkippedIsTaken(reservations, clock, requests, answers, request, day, w, starts, j);
    }
  }

  lemma FirstAroundTheDay(reservations: Reservations, calendar: Calendar, clock: Clock, requests: seq<Request>,
                          answers: seq<Outcome>, request: Request, day: int)
    returns (w: Window, count: nat, turn: nat)
    requires Matches(reservations, requests, answers) && request.step > 0
    requires DaySlot(reservations, calendar, clock, request, day).Some?
    ensures OpenOn(calendar, clock.weekday(request.anchor + day), request.anchor + day, w)
    ensures StartsOfDay(request, w, count) && turn < count
    ensures FirstAround(clock, requests, answers, request, request.anchor + day, w, count, turn,
                        DaySlot(reservations, calendar, clock, request, day).value)
  {
    turn := DaySlotIsFirstInRotation(reservations, calendar, clock, request, day);
    w := ResolveWindow(calendar, clock, request.anchor + day).value;
    WindowIsOpen(calendar, clock, request.anchor + day, w);
    var starts := Starts(w.start, w.end - request.duration, request.step);
    count := |starts|;
    CountOfDay(request, w, starts);
    FirstAroundStarts(reservations, clock, requests, answers, request, day, w, starts, turn,
                      DaySlot(reservations, calendar, clock, request, day).value);
  }

  /** Within its day the slot a call gets is the first that is not taken, around from `|slotIndex|`. */
  lemma CallsGoAround(calendars: map<Id, Calendar>, clock: Clock, requests: seq<Request>, request: Request)
    returns (day: int, w: Window, count: nat, turn: nat)
    requires ReserveOutcome(AfterAll(calendars, clock, requests), calendars, clock, request).Reserved?
    ensures 0 <= day < 120 && request.instructor in calendars
    ensures OpenOn(calendars[request.instructor], clock.weekday(request.anchor + day), request.anchor + day, w)
    ensures StartsOfDay(request, w, count) && turn < count
    ensures FirstAround(clock, requests, Answers(calendars, clock, requests), request, request.anchor + day, w,
                        count, turn,
                        ReserveOutcome(AfterAll(calendars, clock, requests), calendars, clock, request).slot)
  {
    var reservations, calendar := AfterAll(calendars, clock, requests), calendars[request.instructor];
    ReservationsAreSlots(calendars, clock, requests);
    day := FirstFoundIsFirst(DaySlots(reservations, calendar, clock, request), 0);
    w, count, turn := FirstAroundTheDay(reservations, calendar, clock, requests, Answers(calendars, clock, requests),
                                        request, day);
  }
}
