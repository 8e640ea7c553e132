/** The seed planner hands out conflict-free slots: for each request it walks 120 days, and on
    a day the starts of a grid in an order rotated by the request's slot index. */
module SeedPlanner {
  import opened Chronology
  import opened TimeWindows
  import opened AvailabilityOptions

  type Id = nat

  const HORIZON_DAYS: int := 120

  datatype Key = InstructorKey(id: Id) | StudentKey(id: Id) | VehicleKey(id: Id)

  /** Dates are day numbers, times are minutes of the day. */
  datatype WorkingException = WorkingException(date: int, start: Option<int>, end: Option<int>, dayOff: bool)
  datatype Leave = Leave(first: int, last: int)
  datatype Weekly = Weekly(dayOfWeek: int, hours: Window)
  datatype Calendar = Calendar(weekly: seq<Weekly>, exceptions: seq<WorkingException>, leaves: seq<Leave>)

  datatype Request = Request(anchor: int, duration: int, instructor: Id, students: seq<Id>, vehicle: Option<Id>,
                             slotIndex: int, step: int)

  datatype Refusal = NonPositiveDuration | MissingCalendar | NonPositiveStep | NoFreeSlot
  datatype Outcome = Reserved(slot: Window) | Refused(reason: Refusal)

  /** `at(date, minute)` is the instant of a wall-clock time, `weekday(date)` the day of the week. */
  datatype Clock = Clock(at: (int, int) -> int, weekday: int -> int)

  type Reservations = map<Key, seq<Window>>

  // ---------------------------------------------------------------- the calendar

  function ExceptionOn(exceptions: seq<WorkingException>, date: int): Option<WorkingException> {
    if exceptions == [] then None
    else if exceptions[0].date == date then Some(exceptions[0])
    else ExceptionOn(exceptions[1..], date)
  }

  function WeeklyOn(weekly: seq<Weekly>, dayOfWeek: int): Option<Window> {
    if weekly == [] then None
    else if weekly[0].dayOfWeek == dayOfWeek then Some(weekly[0].hours)
    else WeeklyOn(weekly[1..], dayOfWeek)
  }

  predicate OnLeave(leaves: seq<Leave>, date: int) {
    leaves != [] && (leaves[0].first <= date <= leaves[0].last || OnLeave(leaves[1..], date))
  }

  /** A leave closes the day, an exception replaces the weekly hours. */
  function ResolveWindow(calendar: Calendar, clock: Clock, date: int): Option<Window> {
    if OnLeave(calendar.leaves, date) then None
    else match ExceptionOn(calendar.exceptions, date)
      case Some(e) => if e.dayOff || e.start.None? || e.end.None? then None
                      else Some(Window(e.start.value, e.end.value))
      case None => WeeklyOn(calendar.weekly, clock.weekday(date))
  }

  lemma {:induction false} OnLeaveMeans(leaves: seq<Leave>, date: int)
    ensures OnLeave(leaves, date) <==> exists l :: l in leaves && l.first <= date <= l.last
  {
    if leaves != [] {
      OnLeaveMeans(leaves[1..], date);
      assert leaves == [leaves[0]] + leaves[1..];
    }
  }

  lemma {:induction false} ExceptionOnIsFirst(exceptions: seq<WorkingException>, date: int) returns (i: nat)
    ensures i <= |exceptions| && forall j | 0 <= j < i :: exceptions[j].date != date
    ensures i < |exceptions| ==> exceptions[i].date == date
    ensures ExceptionOn(exceptions, date) == if i < |exceptions| then Some(exceptions[i]) else None
  {
    if exceptions == [] || exceptions[0].date == date {
      i := 0;
    } else {
      var k := ExceptionOnIsFirst(exceptions[1..], date);
      i := k + 1;
      assert forall j | 0 < j < i :: exceptions[j] == exceptions[1..][j - 1];
    }
  }

  predicate Closes(e: WorkingException) {
    e.dayOff || e.start.None? || e.end.None?
  }

  /** A leave always closes the day; without one the first exception of the date decides, and
      only without any exception the weekly hours do. */
  lemma ResolveWindowOrder(calendar: Calendar, clock: Clock, date: int)
    ensures (exists l :: l in calendar.leaves && l.first <= date <= l.last) ==>
              ResolveWindow(calendar, clock, date).None?
    ensures (forall l | l in calendar.leaves :: !(l.first <= date <= l.last)) ==>
              && ((forall e | e in calendar.exceptions :: e.date != date) ==>
                    ResolveWindow(calendar, clock, date) == WeeklyOn(calendar.weekly, clock.weekday(date)))
              && forall i | 0 <= i < |calendar.exceptions| && calendar.exceptions[i].date == date
                            && (forall j | 0 <= j < i :: calendar.exceptions[j].date != date) ::
                   var e := calendar.exceptions[i];
                   ResolveWindow(calendar, clock, date)
                   == if Closes(e) then None else Some(Window(e.start.value, e.end.value))
  {
    OnLeaveMeans(calendar.leaves, date);
    var i := ExceptionOnIsFirst(calendar.exceptions, date);
  }

  // ---------------------------------------------------------------- resources

  function WithoutRepeats(keys: seq<Key>): (r: seq<Key>)
    ensures forall k :: k in r <==> k in keys
    ensures forall i, j | 0 <= i < j < |r| :: r[i] != r[j]
  {
    if keys == [] then []
    else
      var n := |keys| - 1;
      var rest := WithoutRepeats(keys[..n]);
      assert keys == keys[..n] + [keys[n]];
      if keys[n] in keys[..n] then rest else rest + [keys[n]]
  }

  function StudentKeys(students: seq<Id>): (r: seq<Key>)
    ensures forall k :: k in r <==> k.StudentKey? && k.id in students
  {
    if students == [] then []
    else
      assert students == [students[0]] + students[1..];
      [StudentKey(students[0])] + StudentKeys(students[1..])
  }

  function ResourceKeys(request: Request): seq<Key> {
    WithoutRepeats([InstructorKey(request.instructor)] + StudentKeys(request.students)
                   + if request.vehicle.Some? then [VehicleKey(request.vehicle.value)] else [])
  }

  /** A request uses its instructor, each of its students and its vehicle. */
  predicate Uses(request: Request, key: Key) {
    match key
    case InstructorKey(x) => x == request.instructor
    case StudentKey(x) => x in request.students
    case VehicleKey(x) => request.vehicle == Some(x)
  }

  function Held(reservations: Reservations, key: Key): seq<Window> {
    if key in reservations then reservations[key] else []
  }

  predicate Conflicts(reservations: Reservations, keys: seq<Key>, slot: Window) {
    exists k | k in keys :: exists r | r in Held(reservations, k) :: Overlaps(r, slot)
  }

  function Push(reservations: Reservations, keys: seq<Key>, slot: Window): Reservations {
    if keys == [] then reservations
    else
      var n := |keys| - 1;
      var before := Push(reservations, keys[..n], slot);
      before[keys[n] := Held(before, keys[n]) + [slot]]
  }

  // ---------------------------------------------------------------- the search

  function Starts(first: int, latest: int, step: int): seq<int>
    requires step > 0
    decreases latest - first
  {
    if first > latest then [] else [first] + Starts(first + step, latest, step)
  }

  function Abs(x: int): nat { if x < 0 then -x else x }

  function Rotated(starts: seq<int>, slotIndex: int): seq<int>
    requires starts != []
  {
    var rotation := Abs(slotIndex) % |starts|;
    starts[rotation..] + starts[..rotation]
  }

  function SlotAt(clock: Clock, date: int, minute: int, duration: int): Window {
    Window(clock.at(date, minute), clock.at(date, minute + duration))
  }

  /** The first candidate from position `i` on that conflicts with nothing. */
  function FirstClear(reservations: Reservations, keys: seq<Key>, candidates: seq<Window>, i: nat): Option<Window>
    decreases |candidates| - i
  {
    if i >= |candidates| then None
    else if Conflicts(reservations, keys, candidates[i]) then FirstClear(reservations, keys, candidates, i + 1)
    else Some(candidates[i])
  }

  /** The starts of a date in the order they are tried. */
  function DayOrder(calendar: Calendar, clock: Clock, request: Request, date: int): seq<int>
    requires request.step > 0
  {
    match ResolveWindow(calendar, clock, date)
    case None => []
    case Some(w) =>
      var starts := Starts(w.start, w.end - request.duration, request.step);
      if starts == [] then [] else Rotated(starts, request.slotIndex)
  }

  function SlotsAt(clock: Clock, date: int, order: seq<int>, duration: int): seq<Window> {
    seq(|order|, i requires 0 <= i < |order| => SlotAt(clock, date, order[i], duration))
  }

  /** The candidate slots of one day in the order they are tried. */
  function Candidates(calendar: Calendar, clock: Clock, request: Request, day: int): seq<Window>
    requires request.step > 0
  {
    var date := request.anchor + day;
    SlotsAt(clock, date, DayOrder(calendar, clock, request, date), request.duration)
  }

  /** The slot the search finds on one day. */
  function DaySlot(reservations: Reservations, calendar: Calendar, clock: Clock, request: Request,
                   day: int): Option<Window>
    requires request.step > 0
  {
    FirstClear(reservations, ResourceKeys(request), Candidates(calendar, clock, request, day), 0)
  }

  /** The first slot found from a day on. */
  function FirstFound(slots: int -> Option<Window>, day: int): Option<Window>
    decreases HORIZON_DAYS - day
  {
    if day >= HORIZON_DAYS then None
    else if slots(day).Some? then slots(day)
    else FirstFound(slots, day + 1)
  }

  lemma {:induction false} FoundOn(slots: int -> Option<Window>, from: int, day: int)
    requires 0 <= from <= day <= HORIZON_DAYS && forall d | from <= d < day :: slots(d).None?
    requires day < HORIZON_DAYS ==> slots(day).Some?
    ensures FirstFound(slots, from) == if day < HORIZON_DAYS then slots(day) else None
    decreases day - from
  {
    if from < day {
      FoundOn(slots, from + 1, day);
    }
  }

  function DaySlots(reservations: Reservations, calendar: Calendar, clock: Clock,
                    request: Request): int -> Option<Window>
    requires request.step > 0
  {
    day => DaySlot(reservations, calendar, clock, request, day)
  }

  function ReserveOutcome(reservations: Reservations, calendars: map<Id, Calendar>, clock: Clock,
                          request: Request): Outcome {
    if request.duration <= 0 then Refused(NonPositiveDuration)
    else if request.instructor !in calendars then Refused(MissingCalendar)
    else if request.step <= 0 then Refused(NonPositiveStep)
    else match FirstFound(DaySlots(reservations, calendars[request.instructor], clock, request), 0)
      case None => Refused(NoFreeSlot)
      case Some(slot) => Reserved(slot)
  }

  /** A refused call changes nothing. */
  function AfterReserve(reservations: Reservations, calendars: map<Id, Calendar>, clock: Clock,
                        request: Request): Reservations {
    match ReserveOutcome(reservations, calendars, clock, request)
    case Refused(_) => reservations
    case Reserved(slot) => Push(reservations, ResourceKeys(request), slot)
  }

  // ---------------------------------------------------------------- as it runs

  class SeedSchedulePlanner {
    const calendars: map<Id, Calendar>
    const clock: Clock
    var reservations: Reservations

    constructor (calendars: map<Id, Calendar>, clock: Clock)
      ensures this.calendars == calendars && this.clock == clock && reservations == map[]
    {
      this.calendars, this.clock, reservations := calendars, clock, map[];
    }

    method Reserve(request: Request) returns (outcome: Outcome)
      modifies this`reservations
      ensures outcome == ReserveOutcome(old(reservations), calendars, clock, request)
      ensures reservations == AfterReserve(old(reservations), calendars, clock, request)
      ensures forall key :: Held(reservations, key) == Held(old(reservations), key)
                            + if outcome.Reserved? && Uses(request, key) then [outcome.slot] else []
    {
      if request.duration <= 0 {
        return Refused(NonPositiveDuration);
      }
      if request.instructor !in calendars {
        return Refused(MissingCalendar);
      }
      var calendar := calendars[request.instructor];
      var keys := ResourceKeys(request);
      if request.step <= 0 {
        return Refused(NonPositiveStep);
      }
      var slot := FindSlot(calendar, request, keys);
      if slot.None? {
        return Refused(NoFreeSlot);
      }
      PushAll(keys, slot.value);
      forall key
        ensures Held(reservations, key)
             == Held(old(reservations), key) + if Uses(request, key) then [slot.value] else []
      {
        UsersHold(old(reservations), request, slot.value, key);
      }
      return Reserved(slot.value);
    }

    /** The day loop. */
    method FindSlot(calendar: Calendar, request: Request, keys: seq<Key>) returns (slot: Option<Window>)
      requires request.step > 0 && keys == ResourceKeys(request)
      ensures slot == FirstFound(DaySlots(reservations, calendar, clock, request), 0)
    {
      ghost var slots := DaySlots(reservations, calendar, clock, request);
      var day := 0;
      while day < HORIZON_DAYS
        invariant 0 <= day <= HORIZON_DAYS && forall d | 0 <= d < day :: slots(d).None?
        decreases HORIZON_DAYS - day
      {
        slot := TryDay(calendar, request, keys, day);
        assert slot == slots(day);
        if slot.Some? {
          FoundOn(slots, 0, day);
          return;
        }
        day := day + 1;
      }
      FoundOn(slots, 0, day);
      return None;
    }

    /** The body of the day loop, up to the first clear start. */
    method TryDay(calendar: Calendar, request: Request, keys: seq<Key>, day: int) returns (slot: Option<Window>)
      requires request.step > 0 && keys == ResourceKeys(request)
      ensures slot == DaySlot(reservations, calendar, clock, request, day)
    {
      var date := request.anchor + day;
      var window := ResolveWindow(calendar, clock, date);
      if window.None? {
        return None;
      }
      var latest := window.value.end - request.duration;
      if latest < window.value.start {
        return None;
      }
      var starts := ListStarts(window.value.start, latest, request.step);
      var order := Rotated(starts, request.slotIndex);
      slot := TryStarts(request, keys, date, order);
    }

    /** The loop over the rotated starts. */
    method TryStarts(request: Request, keys: seq<Key>, date: int, order: seq<int>) returns (slot: Option<Window>)
      ensures slot == FirstClear(reservations, keys, SlotsAt(clock, date, order, request.duration), 0)
    {
      ghost var candidates := SlotsAt(clock, date, order, request.duration);
      var i := 0;
      while i < |order|
        invariant 0 <= i <= |order|
        invariant FirstClear(reservations, keys, candidates, i) == FirstClear(reservations, keys, candidates, 0)
      {
        var candidate := SlotAt(clock, date, order[i], request.duration);
        assert candidate == candidates[i];
        if !Conflicts(reservations, keys, candidate) {
          return Some(candidate);
        }
        i := i + 1;
      }
      return None;
    }

    method PushAll(keys: seq<Key>, slot: Window)
      modifies this`reservations
      ensures reservations == Push(old(reservations), keys, slot)
    {
      for i := 0 to |keys|
        invariant reservations == Push(old(reservations), keys[..i], slot)
      {
        assert keys[..i + 1][..i] == keys[..i];
        var entries := Held(reservations, keys[i]);
        reservations := reservations[keys[i] := entries + [slot]];
      }
      assert keys[..|keys|] == keys;
    }
  }

  method ListStarts(first: int, latest: int, step: int) returns (starts: seq<int>)
    requires step > 0
    ensures starts == Starts(first, latest, step)
  {
    starts := [];
    var minute := first;
    while minute <= latest
      invariant starts + Starts(minute, latest, step) == Starts(first, latest, step)
      decreases latest - minute
    {
      starts := starts + [minute];
      minute := minute + step;
    }
  }

  // ---------------------------------------------------------------- the slot returned

  /** The starts are exactly the steps from the window's start that leave room for the slot. */
  lemma {:induction false} StartsAreTheGrid(first: int, latest: int, step: int)
    requires step > 0
    ensures StepsBefore(Starts(first, latest, step), first, step, latest + 1)
    decreases latest - first
  {
    if first <= latest {
      var rest := Starts(first + step, latest, step);
      StartsAreTheGrid(first + step, latest, step);
      assert forall i | 0 <= i < |rest| :: rest[i] in rest;
      forall x ensures x in [first] + rest <==> first <= x < latest + 1 && Multiple(x - first, step) {
        OneGrid(first, x, step);
      }
    }
  }

  /** The grid from one step further on is the rest of the grid. */
  lemma OneGrid(first: int, x: int, step: int)
    requires step > 0
    ensures first <= x && Multiple(x - first, step) <==>
              x == first || (first + step <= x && Multiple(x - first - step, step))
  {
    MultipleOf(0, step);
    if first <= x < first + step && Multiple(x - first, step) {
      NextMultiple(0, x - first, step);
    }
    if Multiple(x - first, step) {
      BackOneStep(x - first, step);
    }
    if Multiple(x - first - step, step) {
      StepStaysMultiple(x - first - step, step);
    }
  }

  lemma RotatedElements(starts: seq<int>, slotIndex: int)
    requires starts != []
    ensures |Rotated(starts, slotIndex)| == |starts|
    ensures forall x :: x in Rotated(starts, slotIndex) <==> x in starts
  {
    var rotation := Abs(slotIndex) % |starts|;
    assert starts == starts[..rotation] + starts[rotation..];
  }

  /** A slot of the request: on one of the 120 days, inside the window resolved for that day,
      at a start a whole number of steps after the window's start. */
  predicate GridSlot(calendar: Calendar, clock: Clock, request: Request, day: int, minute: int)
    requires request.step > 0
  {
    && 0 <= day < HORIZON_DAYS
    && var w := ResolveWindow(calendar, clock, request.anchor + day);
       && w.Some? && w.value.start <= minute && minute + request.duration <= w.value.end
       && Multiple(minute - w.value.start, request.step)
  }

  lemma DayOrderIsTheGrid(calendar: Calendar, clock: Clock, request: Request, day: int, minute: int)
    requires request.step > 0 && 0 <= day < HORIZON_DAYS
    ensures minute in DayOrder(calendar, clock, request, request.anchor + day) <==>
            GridSlot(calendar, clock, request, day, minute)
  {
    var w := ResolveWindow(calendar, clock, request.anchor + day);
    if w.Some? {
      var starts := Starts(w.value.start, w.value.end - request.duration, request.step);
      StartsAreTheGrid(w.value.start, w.value.end - request.duration, request.step);
      if starts != [] {
        RotatedElements(starts, request.slotIndex);
      }
    }
  }

  lemma {:induction false} FirstClearIsFirst(reservations: Reservations, keys: seq<Key>, candidates: seq<Window>,
                                             i: nat)
    returns (found: nat)
    requires i <= |candidates|
    ensures i <= found <= |candidates| && forall j | i <= j < found :: Conflicts(reservations, keys, candidates[j])
    ensures if FirstClear(reservations, keys, candidates, i).None? then found == |candidates|
            else && found < |candidates| && FirstClear(reservations, keys, candidates, i) == Some(candidates[found])
                 && !Conflicts(reservations, keys, candidates[found])
    decreases |candidates| - i
  {
    if i < |candidates| && Conflicts(reservations, keys, candidates[i]) {
      found := FirstClearIsFirst(reservations, keys, candidates, i + 1);
    } else {
      found := i;
    }
  }

  ghost predicate Full(reservations: Reservations, calendar: Calendar, clock: Clock, request: Request, day: int)
    requires request.step > 0
  {
    forall minute | GridSlot(calendar, clock, request, day, minute) ::
      Conflicts(reservations, ResourceKeys(request), SlotAt(clock, request.anchor + day, minute, request.duration))
  }

  ghost predicate ClearSlot(reservations: Reservations, calendar: Calendar, clock: Clock, request: Request,
                            day: int, minute: int, slot: Window)
    requires request.step > 0
  {
    && GridSlot(calendar, clock, request, day, minute)
    && slot == SlotAt(clock, request.anchor + day, minute, request.duration)
    && !Conflicts(reservations, ResourceKeys(request), slot)
  }

  lemma SlotsOfOrder(clock: Clock, date: int, order: seq<int>, duration: int, grid: int -> bool, slot: Window)
    requires forall m :: m in order <==> grid(m)
    ensures slot in SlotsAt(clock, date, order, duration) <==>
            exists m :: grid(m) && slot == SlotAt(clock, date, m, duration)
  {
    var slots := SlotsAt(clock, date, order, duration);
    if slot in slots {
      var i :| 0 <= i < |slots| && slots[i] == slot;
      assert order[i] in order;
    }
    if m :| grid(m) && slot == SlotAt(clock, date, m, duration) {
      assert m in order;
      var i :| 0 <= i < |order| && order[i] == m;
      assert slots[i] == slot;
    }
  }

  function GridOf(calendar: Calendar, clock: Clock, request: Request, day: int): int -> bool
    requires request.step > 0
  {
    m => GridSlot(calendar, clock, request, day, m)
  }

  lemma OrderIsGridOf(calendar: Calendar, clock: Clock, request: Request, day: int)
    requires request.step > 0 && 0 <= day < HORIZON_DAYS
    ensures var order := DayOrder(calendar, clock, request, request.anchor + day);
            forall m :: m in order <==> GridOf(calendar, clock, request, day)(m)
  {
    var order := DayOrder(calendar, clock, request, request.anchor + day);
    var grid := GridOf(calendar, clock, request, day);
    forall m ensures m in order <==> grid(m) {
      DayOrderIsTheGrid(calendar, clock, request, day, m);
    }
  }

  lemma CandidatesAreTheGrid(calendar: Calendar, clock: Clock, request: Request, day: int, slot: Window)
    requires request.step > 0 && 0 <= day < HORIZON_DAYS
    ensures slot in Candidates(calendar, clock, request, day) <==>
            exists m :: GridOf(calendar, clock, request, day)(m)
                        && slot == SlotAt(clock, request.anchor + day, m, request.duration)
  {
    var date := request.anchor + day;
    OrderIsGridOf(calendar, clock, request, day);
    SlotsOfOrder(clock, date, DayOrder(calendar, clock, request, date), request.duration,
                 GridOf(calendar, clock, request, day), slot);
  }

  lemma DaySlotIsExact(reservations: Reservations, calendar: Calendar, clock: Clock, request: Request, day: int)
    requires request.step > 0 && 0 <= day < HORIZON_DAYS
    ensures match DaySlot(reservations, calendar, clock, request, day)
            case None => Full(reservations, calendar, clock, request, day)
            case Some(slot) => exists m :: ClearSlot(reservations, calendar, clock, request, day, m, slot)
  {
    var date, keys := request.anchor + day, ResourceKeys(request);
    var candidates := Candidates(calendar, clock, request, day);
    var found := FirstClearIsFirst(reservations, keys, candidates, 0);
    if found < |candidates| {
      CandidatesAreTheGrid(calendar, clock, request, day, candidates[found]);
      var m :| GridSlot(calendar, clock, request, day, m)
               && candidates[found] == SlotAt(clock, date, m, request.duration);
      assert ClearSlot(reservations, calendar, clock, request, day, m, candidates[found]);
    } else {
      forall m | GridSlot(calendar, clock, request, day, m)
        ensures Conflicts(reservations, keys, SlotAt(clock, date, m, request.duration))
      {
        assert GridOf(calendar, clock, request, day)(m);
        CandidatesAreTheGrid(calendar, clock, request, day, SlotAt(clock, date, m, request.duration));
      }
    }
  }

  lemma ModUnique(a: int, q: int, r: int, n: int)
    requires n > 0 && a == q * n + r && 0 <= r < n
    ensures a % n == r
  {
    var d := a / n - q;
    assert d * n == r - a % n;
    Smaller(d, n);
  }

  /** The order starts at position `|slotIndex|` and wraps around. */
  lemma RotatedAt(starts: seq<int>, slotIndex: int, k: nat)
    requires k < |starts|
    ensures Rotated(starts, slotIndex)[k] == starts[(Abs(slotIndex) + k) % |starts|]
  {
    var n, a := |starts|, Abs(slotIndex);
    var q, r := a / n, a % n;
    assert a == q * n + r;
    if r + k < n {
      ModUnique(a + k, q, r + k, n);
    } else {
      assert a + k == (q + 1) * n + (r + k - n);
      ModUnique(a + k, q + 1, r + k - n, n);
    }
  }

  /** The slot at a position of the day's starts, counted from `|slotIndex|` around. */
  function SlotInRotation(clock: Clock, request: Request, day: int, starts: seq<int>, k: nat): Window
    requires starts != []
  {
    SlotAt(clock, request.anchor + day, starts[(Abs(request.slotIndex) + k) % |starts|], request.duration)
  }

  lemma RotatedSlots(clock: Clock, request: Request, day: int, starts: seq<int>)
    requires starts != []
    ensures var slots := SlotsAt(clock, request.anchor + day, Rotated(starts, request.slotIndex), request.duration);
            && |slots| == |starts|
            && forall j: nat | j < |slots| :: slots[j] == SlotInRotation(clock, request, day, starts, j)
  {
    var slots := SlotsAt(clock, request.anchor + day, Rotated(starts, request.slotIndex), request.duration);
    forall j: nat | j < |slots| ensures slots[j] == SlotInRotation(clock, request, day, starts, j) {
      RotatedAt(starts, request.slotIndex, j);
    }
  }

  lemma CandidatesRotate(calendar: Calendar, clock: Clock, request: Request, day: int, w: Window, starts: seq<int>)
    requires request.step > 0 && ResolveWindow(calendar, clock, request.anchor + day) == Some(w)
    requires starts == Starts(w.start, w.end - request.duration, request.step)
    ensures var candidates := Candidates(calendar, clock, request, day);
            && |candidates| == |starts|
            && forall j: nat | j < |starts| :: candidates[j] == SlotInRotation(clock, request, day, starts, j)
  {
    if starts != [] {
      RotatedSlots(clock, request, day, starts);
    }
  }

  /** Within its day the slot found is the first one without a conflict, trying the starts of
      the grid from position `|slotIndex|` around. */
  lemma DaySlotIsFirstInRotation(reservations: Reservations, calendar: Calendar, clock: Clock, request: Request,
                                 day: int)
    returns (k: nat)
    requires request.step > 0 && DaySlot(reservations, calendar, clock, request, day).Some?
    ensures ResolveWindow(calendar, clock, request.anchor + day).Some?
    ensures var w := ResolveWindow(calendar, clock, request.anchor + day).value;
            var starts := Starts(w.start, w.end - request.duration, request.step);
            && k < |starts|
            && DaySlot(reservations, calendar, clock, request, day).value
               == SlotInRotation(clock, request, day, starts, k)
            && forall j | 0 <= j < k ::
                 Conflicts(reservations, ResourceKeys(request), SlotInRotation(clock, request, day, starts, j))
  {
    var keys, candidates := ResourceKeys(request), Candidates(calendar, clock, request, day);
    k := FirstClearIsFirst(reservations, keys, candidates, 0);
    var w := ResolveWindow(calendar, clock, request.anchor + day).value;
    var starts := Starts(w.start, w.end - request.duration, request.step);
    CandidatesRotate(calendar, clock, request, day, w, starts);
  }

  lemma {:induction false} FirstFoundIsFirst(slots: int -> Option<Window>, day: int) returns (found: int)
    requires 0 <= day <= HORIZON_DAYS
    ensures day <= found <= HORIZON_DAYS && forall d | day <= d < found :: slots(d).None?
    ensures if FirstFound(slots, day).None? then found == HORIZON_DAYS
            else found < HORIZON_DAYS && FirstFound(slots, day) == slots(found)
    decreases HORIZON_DAYS - day
  {
    if day < HORIZON_DAYS && slots(day).None? {
      found := FirstFoundIsFirst(slots, day + 1);
    } else {
      found := day;
    }
  }

  /** A reserved slot is a free grid slot of the first day that has one; the call fails for
      lack of space exactly when every grid slot of all 120 days conflicts. */
  lemma ReserveIsExact(reservations: Reservations, calendars: map<Id, Calendar>, clock: Clock, request: Request)
    requires request.duration > 0 && request.step > 0 && request.instructor in calendars
    ensures match ReserveOutcome(reservations, calendars, clock, request)
            case Reserved(slot) =>
              exists d, m :: ClearSlot(reservations, calendars[request.instructor], clock, request, d, m, slot)
                && forall e | 0 <= e < d :: Full(reservations, calendars[request.instructor], clock, request, e)
            case Refused(reason) =>
              && reason == NoFreeSlot
              && forall d | 0 <= d < HORIZON_DAYS ::
                   Full(reservations, calendars[request.instructor], clock, request, d)
  {
    var calendar := calendars[request.instructor];
    var slots := DaySlots(reservations, calendar, clock, request);
    var found := FirstFoundIsFirst(slots, 0);
    forall d | 0 <= d < found ensures Full(reservations, calendar, clock, request, d) {
      assert slots(d).None?;
      DaySlotIsExact(reservations, calendar, clock, request, d);
    }
    if found < HORIZON_DAYS {
      DaySlotIsExact(reservations, calendar, clock, request, found);
    }
  }

  // ---------------------------------------------------------------- disjointness

  predicate PairwiseDisjoint(s: seq<Window>) {
    forall i, j | 0 <= i < j < |s| :: !Overlaps(s[i], s[j])
  }

  predicate AllDisjoint(reservations: Reservations) {
    forall k | k in reservations :: PairwiseDisjoint(reservations[k])
  }

  lemma {:induction false} PushHolds(reservations: Reservations, keys: seq<Key>, slot: Window, key: Key)
    requires forall i, j | 0 <= i < j < |keys| :: keys[i] != keys[j]
    ensures Held(Push(reservations, keys, slot), key) == Held(reservations, key) + if key in keys then [slot] else []
  {
    if keys != [] {
      PushHolds(reservations, keys[..|keys| - 1], slot, key);
      assert keys == keys[..|keys| - 1] + [keys[|keys| - 1]];
    }
  }

  lemma KeysAreUsed(request: Request, key: Key)
    ensures key in ResourceKeys(request) <==> Uses(request, key)
  {
  }

  lemma UsersHold(reservations: Reservations, request: Request, slot: Window, key: Key)
    ensures Held(Push(reservations, ResourceKeys(request), slot), key)
         == Held(reservations, key) + if Uses(request, key) then [slot] else []
  {
    PushHolds(reservations, ResourceKeys(request), slot, key);
    KeysAreUsed(request, key);
  }

  lemma ReserveKeepsDisjoint(reservations: Reservations, calendars: map<Id, Calendar>, clock: Clock, request: Request)
    requires AllDisjoint(reservations)
    ensures AllDisjoint(AfterReserve(reservations, calendars, clock, request))
  {
    var outcome := ReserveOutcome(reservations, calendars, clock, request);
    if outcome.Reserved? {
      ReserveIsExact(reservations, calendars, clock, request);
      var keys, after := ResourceKeys(request), AfterReserve(reservations, calendars, clock, request);
      forall k | k in after ensures PairwiseDisjoint(after[k]) {
        PushHolds(reservations, keys, outcome.slot, k);
        assert PairwiseDisjoint(Held(reservations, k));
        assert after[k] == Held(after, k);
      }
    }
  }

  function AfterAll(calendars: map<Id, Calendar>, clock: Clock, requests: seq<Request>): Reservations {
    if requests == [] then map[]
    else AfterReserve(AfterAll(calendars, clock, requests[..|requests| - 1]),
                      calendars, clock, requests[|requests| - 1])
  }

  /** After any sequence of calls, no resource holds two overlapping reservations. */
  lemma {:induction false} RunsStayDisjoint(calendars: map<Id, Calendar>, clock: Clock, requests: seq<Request>)
    ensures AllDisjoint(AfterAll(calendars, clock, requests))
  {
    if requests != [] {
      RunsStayDisjoint(calendars, clock, requests[..|requests| - 1]);
      ReserveKeepsDisjoint(AfterAll(calendars, clock, requests[..|requests| - 1]), calendars, clock,
                           requests[|requests| - 1]);
    }
  }

  // ---------------------------------------------------------------- non-empty slots

  /** Later wall-clock times of a day are later instants. */
  ghost predicate StrictClock(clock: Clock) {
    forall date, a, b | a < b :: clock.at(date, a) < clock.at(date, b)
  }

  predicate NonEmpty(s: seq<Window>) {
    forall w | w in s :: w.start < w.end
  }

  predicate AllNonEmpty(reservations: Reservations) {
    forall k | k in reservations :: NonEmpty(reservations[k])
  }

  lemma {:induction false} RunsStayNonEmpty(calendars: map<Id, Calendar>, clock: Clock, requests: seq<Request>)
    requires StrictClock(clock)
    ensures AllNonEmpty(AfterAll(calendars, clock, requests))
  {
    if requests != [] {
      var n := |requests| - 1;
      var before := AfterAll(calendars, clock, requests[..n]);
      RunsStayNonEmpty(calendars, clock, requests[..n]);
      var outcome := ReserveOutcome(before, calendars, clock, requests[n]);
      if outcome.Reserved? {
        ReserveIsExact(before, calendars, clock, requests[n]);
        var after := AfterAll(calendars, clock, requests);
        forall k | k in after ensures NonEmpty(after[k]) {
          PushHolds(before, ResourceKeys(requests[n]), outcome.slot, k);
          assert NonEmpty(Held(before, k));
          assert after[k] == Held(after, k);
        }
      }
    }
  }
}
