/** The integrity check of seeded schedules: collect the windows of every resource, sort them
    and compare neighbours.  It accepts exactly the data whose windows are disjoint, so data
    taken from planner reservations always passes. */
module SeedIntegrity {
  import opened Chronology
  import opened TimeWindows
  import opened SeedPlanner

  datatype SeedLesson = SeedLesson(cancelled: bool, instructor: Id, student: Id, vehicle: Option<Id>, span: Window)
  datatype SeedEvent = SeedEvent(skipped: bool, id: Option<Id>, instructor: Id, vehicle: Option<Id>, span: Window)
  datatype Participant = Participant(event: Id, student: Id)
  datatype SeedBlock = SeedBlock(instructor: Id, span: Window)

  /** An event is `skipped` when it is inactive or cancelled. */
  datatype Input = Input(lessons: seq<SeedLesson>, events: seq<SeedEvent>, participants: seq<Participant>,
                         blocks: seq<SeedBlock>)

  type Resources = map<Key, seq<Window>>

  // ---------------------------------------------------------------- collected windows

  function VehicleKeys(vehicle: Option<Id>): seq<Key> {
    if vehicle.Some? then [VehicleKey(vehicle.value)] else []
  }

  function StudentsOf(participants: seq<Participant>, event: Id): seq<Id> {
    if participants == [] then []
    else
      var n := |participants| - 1;
      StudentsOf(participants[..n], event) + if participants[n].event == event then [participants[n].student] else []
  }

  function LessonKeys(l: SeedLesson): seq<Key> {
    [InstructorKey(l.instructor), StudentKey(l.student)] + VehicleKeys(l.vehicle)
  }

  function EventKeys(e: SeedEvent, participants: seq<Participant>): seq<Key>
    requires e.id.Some?
  {
    [InstructorKey(e.instructor)] + VehicleKeys(e.vehicle) + StudentKeys(StudentsOf(participants, e.id.value))
  }

  function Times(keys: seq<Key>, key: Key, w: Window): seq<Window> {
    if keys == [] then []
    else Times(keys[..|keys| - 1], key, w) + if keys[|keys| - 1] == key then [w] else []
  }

  function LessonWindows(lessons: seq<SeedLesson>, key: Key): seq<Window> {
    if lessons == [] then []
    else
      var n := |lessons| - 1;
      LessonWindows(lessons[..n], key)
      + if lessons[n].cancelled then [] else Times(LessonKeys(lessons[n]), key, lessons[n].span)
  }

  function EventWindows(events: seq<SeedEvent>, participants: seq<Participant>, key: Key): seq<Window> {
    if events == [] then []
    else
      var n := |events| - 1;
      EventWindows(events[..n], participants, key)
      + if events[n].skipped || events[n].id.None? then []
        else Times(EventKeys(events[n], participants), key, events[n].span)
  }

  function BlockWindows(blocks: seq<SeedBlock>, key: Key): seq<Window> {
    if blocks == [] then []
    else
      var n := |blocks| - 1;
      BlockWindows(blocks[..n], key) + Times([InstructorKey(blocks[n].instructor)], key, blocks[n].span)
  }

  /** Every window a resource holds, in the order collected. */
  function WindowsOf(input: Input, key: Key): seq<Window> {
    LessonWindows(input.lessons, key) + EventWindows(input.events, input.participants, key)
    + BlockWindows(input.blocks, key)
  }

  predicate ValidLesson(l: SeedLesson) { l.cancelled || l.span.start < l.span.end }
  predicate ValidEvent(e: SeedEvent) { e.skipped || (e.id.Some? && e.span.start < e.span.end) }

  /** Counted entries have a positive length and counted events an id. */
  predicate ValidEntries(input: Input) {
    && (forall l | l in input.lessons :: ValidLesson(l))
    && (forall e | e in input.events :: ValidEvent(e))
    && (forall b | b in input.blocks :: b.span.start < b.span.end)
  }

  /** No resource holds two overlapping windows. */
  ghost predicate DisjointResources(input: Input) {
    forall key: Key :: PairwiseDisjoint(WindowsOf(input, key))
  }

  // ---------------------------------------------------------------- sorting and scanning

  predicate NoLater(a: Window, b: Window) {
    a.start < b.start || (a.start == b.start && a.end <= b.end)
  }

  predicate InOrder(s: seq<Window>) {
    forall i, j | 0 <= i < j < |s| :: NoLater(s[i], s[j])
  }

  lemma AppendInOrder(s: seq<Window>, last: Window)
    requires InOrder(s) && forall x | x in multiset(s) :: NoLater(x, last)
    ensures InOrder(s + [last])
  {
    assert forall i | 0 <= i < |s| :: s[i] in multiset(s);
  }

  function Insert(s: seq<Window>, w: Window): (r: seq<Window>)
    requires InOrder(s)
    ensures InOrder(r) && multiset(r) == multiset(s) + multiset{w}
  {
    if s == [] then [w]
    else
      var last := s[|s| - 1];
      assert s == s[..|s| - 1] + [last];
      if NoLater(last, w) then
        assert forall x | x in multiset(s) :: NoLater(x, w);
        AppendInOrder(s, w);
        s + [w]
      else
        var rest := Insert(s[..|s| - 1], w);
        assert forall x | x in multiset(s[..|s| - 1]) :: NoLater(x, last);
        AppendInOrder(rest, last);
        rest + [last]
  }

  function Sort(s: seq<Window>): (r: seq<Window>)
    ensures InOrder(r) && multiset(r) == multiset(s)
  {
    if s == [] then []
    else
      assert s == s[..|s| - 1] + [s[|s| - 1]];
      Insert(Sort(s[..|s| - 1]), s[|s| - 1])
  }

  /** Disjointness as a property of the collected windows, whatever their order. */
  ghost predicate DisjointBag(m: multiset<Window>) {
    && (forall w | w in m :: m[w] == 1)
    && forall v, w | v in m && w in m && v != w :: !Overlaps(v, w)
  }

  lemma {:induction false} OncePerPosition(s: seq<Window>, i: nat, j: nat)
    requires i < j < |s| && s[i] == s[j]
    ensures multiset(s)[s[i]] >= 2
  {
    assert s == s[..j] + s[j..];
    assert s[i] in s[..j] && s[j] in s[j..];
  }

  lemma {:induction false} TwoPositions(s: seq<Window>, w: Window) returns (i: nat, j: nat)
    requires multiset(s)[w] >= 2
    ensures i < j < |s| && s[i] == w && s[j] == w
  {
    var n := |s| - 1;
    assert s == s[..n] + [s[n]];
    if s[n] == w {
      j := n;
      assert w in multiset(s[..n]);
      i :| 0 <= i < n && s[i] == w;
    } else {
      i, j := TwoPositions(s[..n], w);
    }
  }

  lemma RepeatsOverlap(s: seq<Window>, w: Window)
    requires NonEmpty(s) && multiset(s)[w] >= 2
    ensures !PairwiseDisjoint(s)
  {
    var i, j := TwoPositions(s, w);
    assert Overlaps(s[i], s[j]);
  }

  lemma PairwiseIsBag(s: seq<Window>)
    requires NonEmpty(s)
    ensures PairwiseDisjoint(s) <==> DisjointBag(multiset(s))
  {
    if PairwiseDisjoint(s) {
      forall w | w in multiset(s) ensures multiset(s)[w] == 1 {
        if multiset(s)[w] >= 2 {
          RepeatsOverlap(s, w);
        }
      }
      forall v, w | v in multiset(s) && w in multiset(s) && v != w ensures !Overlaps(v, w) {
        var i :| 0 <= i < |s| && s[i] == v;
        var j :| 0 <= j < |s| && s[j] == w;
      }
    }
    if DisjointBag(multiset(s)) {
      forall i, j | 0 <= i < j < |s| ensures !Overlaps(s[i], s[j]) {
        assert s[i] in multiset(s) && s[j] in multiset(s);
        if s[i] == s[j] {
          OncePerPosition(s, i, j);
        }
      }
    }
  }

  /** Each window of the list ends no later than the next one starts. */
  predicate NeighboursApart(s: seq<Window>) {
    forall i | 0 < i < |s| :: s[i].start >= s[i - 1].end
  }

  lemma {:induction false} ApartFrom(s: seq<Window>, i: nat, j: nat)
    requires NonEmpty(s) && NeighboursApart(s) && i < j < |s|
    ensures s[i].end <= s[j].start
  {
    assert s[i] in s && s[j - 1] in s;
    if i < j - 1 {
      ApartFrom(s, i, j - 1);
    }
  }

  /** For sorted non-empty windows the comparison of neighbours decides disjointness. */
  lemma NeighboursDecide(s: seq<Window>)
    requires NonEmpty(s)
    ensures NeighboursApart(Sort(s)) <==> PairwiseDisjoint(s)
  {
    var sorted := Sort(s);
    forall w | w in sorted ensures w.start < w.end {
      assert w in multiset(sorted) && w in multiset(s);
    }
    PairwiseIsBag(s);
    PairwiseIsBag(sorted);
    if NeighboursApart(sorted) {
      forall i, j | 0 <= i < j < |sorted| ensures !Overlaps(sorted[i], sorted[j]) {
        ApartFrom(sorted, i, j);
      }
    }
    if PairwiseDisjoint(sorted) {
      forall i | 0 < i < |sorted| ensures sorted[i].start >= sorted[i - 1].end {
        assert !Overlaps(sorted[i - 1], sorted[i]) && NoLater(sorted[i - 1], sorted[i]);
        assert sorted[i] in sorted && sorted[i - 1] in sorted;
      }
    }
  }

  /** Compares each window with the one before. */
  method CompareNeighbours(sorted: seq<Window>) returns (apart: bool)
    ensures apart <==> NeighboursApart(sorted)
  {
    var index := 1;
    while index < |sorted|
      invariant 1 <= index && forall i | 0 < i < index && i < |sorted| :: sorted[i].start >= sorted[i - 1].end
    {
      if sorted[index].start < sorted[index - 1].end {
        return false;
      }
      index := index + 1;
    }
    return true;
  }

  method ScanResource(windows: seq<Window>) returns (apart: bool)
    requires NonEmpty(windows)
    ensures apart <==> PairwiseDisjoint(windows)
  {
    NeighboursDecide(windows);
    apart := CompareNeighbours(Sort(windows));
  }

  // ---------------------------------------------------------------- collecting

  lemma {:induction false} PushTimes(resources: Resources, keys: seq<Key>, w: Window, key: Key)
    ensures Held(Push(resources, keys, w), key) == Held(resources, key) + Times(keys, key, w)
  {
    if keys != [] {
      PushTimes(resources, keys[..|keys| - 1], w, key);
    }
  }

  method AddWindow(resources: Resources, key: Key, w: Window) returns (next: Resources)
    ensures next == Push(resources, [key], w)
  {
    assert [key][..0] == [];
    next := resources[key := Held(resources, key) + [w]];
  }

  method AddAll(resources: Resources, keys: seq<Key>, w: Window) returns (next: Resources)
    ensures next == Push(resources, keys, w)
  {
    next := resources;
    for i := 0 to |keys|
      invariant next == Push(resources, keys[..i], w)
    {
      assert keys[..i + 1][..i] == keys[..i];
      next := next[keys[i] := Held(next, keys[i]) + [w]];
    }
    assert keys[..|keys|] == keys;
  }

  /** The map holds what was collected from the first rows of each table. */
  ghost predicate Collected(resources: Resources, lessons: seq<SeedLesson>, events: seq<SeedEvent>,
                            participants: seq<Participant>, blocks: seq<SeedBlock>)
  {
    forall key: Key :: Held(resources, key) == WindowsOf(Input(lessons, events, participants, blocks), key)
  }

  lemma Glue(a: seq<Window>, b: seq<Window>, t: seq<Window>)
    ensures (a + [] + []) + t == (a + t) + [] + []
    ensures (a + b + []) + t == a + (b + t) + []
  {
  }

  lemma GlueLast(before: seq<Window>, c: seq<Window>, t: seq<Window>)
    ensures (before + c) + t == before + (c + t)
  {
  }

  lemma LessonAppended(lessons: seq<SeedLesson>, l: SeedLesson, key: Key)
    ensures LessonWindows(lessons + [l], key)
         == LessonWindows(lessons, key) + if l.cancelled then [] else Times(LessonKeys(l), key, l.span)
  {
    assert (lessons + [l])[..|lessons|] == lessons;
  }

  lemma EventAppended(events: seq<SeedEvent>, participants: seq<Participant>, e: SeedEvent, key: Key)
    ensures EventWindows(events + [e], participants, key)
         == EventWindows(events, participants, key)
            + if e.skipped || e.id.None? then [] else Times(EventKeys(e, participants), key, e.span)
  {
    assert (events + [e])[..|events|] == events;
  }

  lemma BlockAppended(blocks: seq<SeedBlock>, b: SeedBlock, key: Key)
    ensures BlockWindows(blocks + [b], key)
         == BlockWindows(blocks, key) + Times([InstructorKey(b.instructor)], key, b.span)
  {
    assert (blocks + [b])[..|blocks|] == blocks;
  }

  lemma OneLesson(resources: Resources, lessons: seq<SeedLesson>, l: SeedLesson, participants: seq<Participant>)
    requires Collected(resources, lessons, [], participants, []) && !l.cancelled
    ensures Collected(Push(resources, LessonKeys(l), l.span), lessons + [l], [], participants, [])
  {
    forall key: Key
      ensures Held(Push(resources, LessonKeys(l), l.span), key)
           == WindowsOf(Input(lessons + [l], [], participants, []), key)
    {
      PushTimes(resources, LessonKeys(l), l.span, key);
      LessonAppended(lessons, l, key);
      Glue(LessonWindows(lessons, key), [], Times(LessonKeys(l), key, l.span));
    }
  }

  lemma OneEvent(resources: Resources, lessons: seq<SeedLesson>, events: seq<SeedEvent>, e: SeedEvent,
                 participants: seq<Participant>)
    requires Collected(resources, lessons, events, participants, []) && !e.skipped && e.id.Some?
    ensures Collected(Push(resources, EventKeys(e, participants), e.span), lessons, events + [e], participants, [])
  {
    forall key: Key
      ensures Held(Push(resources, EventKeys(e, participants), e.span), key)
           == WindowsOf(Input(lessons, events + [e], participants, []), key)
    {
      PushTimes(resources, EventKeys(e, participants), e.span, key);
      EventAppended(events, participants, e, key);
      Glue(LessonWindows(lessons, key), EventWindows(events, participants, key),
           Times(EventKeys(e, participants), key, e.span));
    }
  }

  /** An entry that is not counted leaves the collection as it is. */
  lemma SkippedLesson(resources: Resources, lessons: seq<SeedLesson>, l: SeedLesson, participants: seq<Participant>)
    requires Collected(resources, lessons, [], participants, []) && l.cancelled
    ensures Collected(resources, lessons + [l], [], participants, [])
  {
    forall key: Key ensures Held(resources, key) == WindowsOf(Input(lessons + [l], [], participants, []), key) {
      LessonAppended(lessons, l, key);
      assert LessonWindows(lessons + [l], key) == LessonWindows(lessons, key);
    }
  }

  lemma SkippedEvent(resources: Resources, lessons: seq<SeedLesson>, events: seq<SeedEvent>, e: SeedEvent,
                     participants: seq<Participant>)
    requires Collected(resources, lessons, events, participants, []) && e.skipped
    ensures Collected(resources, lessons, events + [e], participants, [])
  {
    forall key: Key ensures Held(resources, key) == WindowsOf(Input(lessons, events + [e], participants, []), key) {
      EventAppended(events, participants, e, key);
      assert EventWindows(events + [e], participants, key) == EventWindows(events, participants, key);
    }
  }

  lemma OneBlock(resources: Resources, lessons: seq<SeedLesson>, events: seq<SeedEvent>,
                 participants: seq<Participant>, blocks: seq<SeedBlock>, b: SeedBlock)
    requires Collected(resources, lessons, events, participants, blocks)
    ensures Collected(Push(resources, [InstructorKey(b.instructor)], b.span),
                      lessons, events, participants, blocks + [b])
  {
    BlockHeld(resources, lessons, events, participants, blocks, b, [InstructorKey(b.instructor)]);
  }

  lemma BlockHeld(resources: Resources, lessons: seq<SeedLesson>, events: seq<SeedEvent>,
                  participants: seq<Participant>, blocks: seq<SeedBlock>, b: SeedBlock, keys: seq<Key>)
    requires Collected(resources, lessons, events, participants, blocks) && keys == [InstructorKey(b.instructor)]
    ensures Collected(Push(resources, keys, b.span), lessons, events, participants, blocks + [b])
  {
    forall key: Key
      ensures Held(Push(resources, keys, b.span), key)
           == WindowsOf(Input(lessons, events, participants, blocks + [b]), key)
    {
      PushTimes(resources, keys, b.span, key);
      BlockAppended(blocks, b, key);
      GlueLast(LessonWindows(lessons, key) + EventWindows(events, participants, key), BlockWindows(blocks, key),
               Times(keys, key, b.span));
    }
  }

  /** Students by event, in the order of the participant rows. */
  method GroupParticipants(participants: seq<Participant>) returns (byEvent: map<Id, seq<Id>>)
    ensures forall e: Id :: (if e in byEvent then byEvent[e] else []) == StudentsOf(participants, e)
  {
    byEvent := map[];
    for i := 0 to |participants|
      invariant forall e: Id :: (if e in byEvent then byEvent[e] else []) == StudentsOf(participants[..i], e)
    {
      assert participants[..i + 1][..i] == participants[..i];
      var p := participants[i];
      var students := if p.event in byEvent then byEvent[p.event] else [];
      byEvent := byEvent[p.event := students + [p.student]];
    }
    assert participants[..|participants|] == participants;
  }

  method CollectLessons(lessons: seq<SeedLesson>, ghost participants: seq<Participant>)
    returns (valid: bool, resources: Resources)
    ensures valid <==> forall l | l in lessons :: ValidLesson(l)
    ensures valid ==> Collected(resources, lessons, [], participants, [])
  {
    resources := map[];
    for i := 0 to |lessons|
      invariant forall l | l in lessons[..i] :: ValidLesson(l)
      invariant Collected(resources, lessons[..i], [], participants, [])
    {
      var lesson := lessons[i];
      assert lessons[..i + 1] == lessons[..i] + [lesson];
      if lesson.cancelled {
        SkippedLesson(resources, lessons[..i], lesson, participants);
      } else {
        if lesson.span.start >= lesson.span.end {
          assert lesson in lessons && !ValidLesson(lesson);
          return false, resources;
        }
        OneLesson(resources, lessons[..i], lesson, participants);
        resources := AddAll(resources, LessonKeys(lesson), lesson.span);
      }
    }
    assert lessons[..|lessons|] == lessons;
    valid := true;
  }

  method CollectEvents(before: Resources, ghost lessons: seq<SeedLesson>, events: seq<SeedEvent>,
                       participants: seq<Participant>) returns (valid: bool, resources: Resources)
    requires Collected(before, lessons, [], participants, [])
    ensures valid <==> forall e | e in events :: ValidEvent(e)
    ensures valid ==> Collected(resources, lessons, events, participants, [])
  {
    resources := before;
    var byEvent := GroupParticipants(participants);
    for i := 0 to |events|
      invariant forall e | e in events[..i] :: ValidEvent(e)
      invariant Collected(resources, lessons, events[..i], participants, [])
    {
      var event := events[i];
      assert events[..i + 1] == events[..i] + [event];
      if !event.skipped {
        if event.id.None? || event.span.start >= event.span.end {
          assert event in events && !ValidEvent(event);
          return false, resources;
        }
        OneEvent(resources, lessons, events[..i], event, participants);
        var students := if event.id.value in byEvent then byEvent[event.id.value] else [];
        resources := AddAll(resources,
                            [InstructorKey(event.instructor)] + VehicleKeys(event.vehicle) + StudentKeys(students),
                            event.span);
      } else {
        SkippedEvent(resources, lessons, events[..i], event, participants);
      }
    }
    assert events[..|events|] == events;
    valid := true;
  }

  method CollectBlocks(before: Resources, ghost lessons: seq<SeedLesson>, ghost events: seq<SeedEvent>,
                       ghost participants: seq<Participant>, blocks: seq<SeedBlock>)
    returns (valid: bool, resources: Resources)
    requires Collected(before, lessons, events, participants, [])
    ensures valid <==> forall b | b in blocks :: b.span.start < b.span.end
    ensures valid ==> Collected(resources, lessons, events, participants, blocks)
  {
    resources := before;
    for i := 0 to |blocks|
      invariant forall b | b in blocks[..i] :: b.span.start < b.span.end
      invariant Collected(resources, lessons, events, participants, blocks[..i])
    {
      var block := blocks[i];
      assert blocks[..i + 1] == blocks[..i] + [block];
      OneBlock(resources, lessons, events, participants, blocks[..i], block);
      if block.span.start >= block.span.end {
        return false, resources;
      }
      resources := AddWindow(resources, InstructorKey(block.instructor), block.span);
    }
    assert blocks[..|blocks|] == blocks;
    valid := true;
  }

  method ScanAll(resources: Resources) returns (apart: bool)
    requires forall k | k in resources :: NonEmpty(resources[k])
    ensures apart <==> forall k | k in resources :: PairwiseDisjoint(resources[k])
  {
    var left := resources.Keys;
    while left != {}
      invariant left <= resources.Keys
      invariant forall k | k in resources.Keys - left :: PairwiseDisjoint(resources[k])
      decreases |left|
    {
      var key :| key in left;
      apart := ScanResource(resources[key]);
      if !apart {
        return;
      }
      left := left - {key};
    }
    apart := true;
  }

  // ---------------------------------------------------------------- the check

  lemma {:induction false} TimesNonEmpty(keys: seq<Key>, key: Key, w: Window)
    requires w.start < w.end
    ensures NonEmpty(Times(keys, key, w))
  {
    if keys != [] {
      TimesNonEmpty(keys[..|keys| - 1], key, w);
    }
  }

  lemma {:induction false} LessonsNonEmpty(lessons: seq<SeedLesson>, key: Key)
    requires forall l | l in lessons :: ValidLesson(l)
    ensures NonEmpty(LessonWindows(lessons, key))
  {
    if lessons != [] {
      var l := lessons[|lessons| - 1];
      assert ValidLesson(l);
      LessonsNonEmpty(lessons[..|lessons| - 1], key);
      if !l.cancelled {
        TimesNonEmpty(LessonKeys(l), key, l.span);
      }
    }
  }

  lemma {:induction false} EventsNonEmpty(events: seq<SeedEvent>, participants: seq<Participant>, key: Key)
    requires forall e | e in events :: ValidEvent(e)
    ensures NonEmpty(EventWindows(events, participants, key))
  {
    if events != [] {
      var e := events[|events| - 1];
      assert ValidEvent(e);
      EventsNonEmpty(events[..|events| - 1], participants, key);
      if !e.skipped {
        TimesNonEmpty(EventKeys(e, participants), key, e.span);
      }
    }
  }

  lemma {:induction false} BlocksNonEmpty(blocks: seq<SeedBlock>, key: Key)
    requires forall b | b in blocks :: b.span.start < b.span.end
    ensures NonEmpty(BlockWindows(blocks, key))
  {
    if blocks != [] {
      var b := blocks[|blocks| - 1];
      BlocksNonEmpty(blocks[..|blocks| - 1], key);
      TimesNonEmpty([InstructorKey(b.instructor)], key, b.span);
    }
  }

  lemma WindowsNonEmpty(input: Input, key: Key)
    requires ValidEntries(input)
    ensures NonEmpty(WindowsOf(input, key))
  {
    LessonsNonEmpty(input.lessons, key);
    EventsNonEmpty(input.events, input.participants, key);
    BlocksNonEmpty(input.blocks, key);
  }

  /** Accepts exactly when every counted entry is valid and no resource holds two
      overlapping windows. */
  method AssertSeedScheduleIntegrity(input: Input) returns (accepted: bool)
    ensures accepted <==> ValidEntries(input) && DisjointResources(input)
  {
    var valid, resources := CollectLessons(input.lessons, input.participants);
    if !valid {
      return false;
    }
    valid, resources := CollectEvents(resources, input.lessons, input.events, input.participants);
    if !valid {
      return false;
    }
    valid, resources := CollectBlocks(resources, input.lessons, input.events, input.participants, input.blocks);
    if !valid {
      return false;
    }
    CollectedDecides(input, resources);
    accepted := ScanAll(resources);
  }

  lemma CollectedDecides(input: Input, resources: Resources)
    requires ValidEntries(input)
    requires Collected(resources, input.lessons, input.events, input.participants, input.blocks)
    ensures forall k | k in resources :: NonEmpty(resources[k])
    ensures (forall k | k in resources :: PairwiseDisjoint(resources[k])) <==> DisjointResources(input)
  {
    forall k: Key ensures Held(resources, k) == WindowsOf(input, k) && NonEmpty(WindowsOf(input, k)) {
      WindowsNonEmpty(input, k);
      assert Held(resources, k) == WindowsOf(Input(input.lessons, input.events, input.participants, input.blocks), k);
    }
    if forall k | k in resources :: PairwiseDisjoint(resources[k]) {
      forall k: Key ensures PairwiseDisjoint(WindowsOf(input, k)) {
        assert Held(resources, k) == WindowsOf(input, k);
      }
    }
    forall k | k in resources ensures Held(resources, k) == resources[k] {}
  }

  // ---------------------------------------------------------------- planner data

  /** Every window a resource holds in the data was reserved for it by the planner, each
      reservation used at most once. */
  ghost predicate FromPlanner(input: Input, reservations: Reservations) {
    forall key: Key :: multiset(WindowsOf(input, key)) <= multiset(Held(reservations, key))
  }

  predicate EventsHaveIds(input: Input) {
    forall e | e in input.events :: e.skipped || e.id.Some?
  }

  lemma {:induction false} SubBagDisjoint(a: seq<Window>, b: seq<Window>)
    requires NonEmpty(b) && PairwiseDisjoint(b) && multiset(a) <= multiset(b)
    ensures PairwiseDisjoint(a)
  {
    forall w | w in a ensures w.start < w.end {
      assert w in multiset(a) && w in multiset(b);
    }
    PairwiseIsBag(a);
    PairwiseIsBag(b);
    assert forall w | w in multiset(a) :: w in multiset(b) && multiset(a)[w] <= multiset(b)[w];
  }

  /** Data whose counted entries all come from planner reservations is always accepted. */
  lemma PlannerDataIsAccepted(input: Input, calendars: map<Id, Calendar>, clock: Clock, requests: seq<Request>)
    requires StrictClock(clock) && EventsHaveIds(input)
    requires FromPlanner(input, AfterAll(calendars, clock, requests))
    ensures ValidEntries(input) && DisjointResources(input)
  {
    var reservations := AfterAll(calendars, clock, requests);
    RunsStayDisjoint(calendars, clock, requests);
    RunsStayNonEmpty(calendars, clock, requests);
    forall key: Key
      ensures PairwiseDisjoint(WindowsOf(input, key)) && NonEmpty(WindowsOf(input, key))
    {
      SubBagDisjoint(WindowsOf(input, key), Held(reservations, key));
      forall w | w in WindowsOf(input, key) ensures w.start < w.end {
        assert w in multiset(WindowsOf(input, key)) && w in multiset(Held(reservations, key));
      }
    }
    EntriesShowUp(input);
  }

  /** Each counted entry contributes its window to its instructor. */
  lemma EntriesShowUp(input: Input)
    requires EventsHaveIds(input) && forall key: Key :: NonEmpty(WindowsOf(input, key))
    ensures ValidEntries(input)
  {
    forall l | l in input.lessons ensures ValidLesson(l) {
      LessonShowsUp(input.lessons, l);
      assert NonEmpty(WindowsOf(input, InstructorKey(l.instructor)));
    }
    forall e | e in input.events ensures ValidEvent(e) {
      EventShowsUp(input.events, input.participants, e);
      assert NonEmpty(WindowsOf(input, InstructorKey(e.instructor)));
    }
    forall b | b in input.blocks ensures b.span.start < b.span.end {
      BlockShowsUp(input.blocks, b);
      assert NonEmpty(WindowsOf(input, InstructorKey(b.instructor)));
    }
  }

  lemma {:induction false} TimesHas(keys: seq<Key>, key: Key, w: Window)
    requires key in keys
    ensures w in Times(keys, key, w)
  {
    var n := |keys| - 1;
    assert keys == keys[..n] + [keys[n]];
    if keys[n] != key {
      TimesHas(keys[..n], key, w);
    }
  }

  lemma {:induction false} LessonShowsUp(lessons: seq<SeedLesson>, l: SeedLesson)
    requires l in lessons
    ensures l.cancelled || l.span in LessonWindows(lessons, InstructorKey(l.instructor))
  {
    var n := |lessons| - 1;
    assert lessons == lessons[..n] + [lessons[n]];
    if lessons[n] == l {
      TimesHas(LessonKeys(l), InstructorKey(l.instructor), l.span);
    } else {
      LessonShowsUp(lessons[..n], l);
    }
  }

  lemma {:induction false} EventShowsUp(events: seq<SeedEvent>, participants: seq<Participant>, e: SeedEvent)
    requires e in events
    ensures e.skipped || e.id.None? || e.span in EventWindows(events, participants, InstructorKey(e.instructor))
  {
    var n := |events| - 1;
    assert events == events[..n] + [events[n]];
    if events[n] == e {
      if e.id.Some? {
        TimesHas(EventKeys(e, participants), InstructorKey(e.instructor), e.span);
      }
    } else {
      EventShowsUp(events[..n], participants, e);
    }
  }

  lemma {:induction false} BlockShowsUp(blocks: seq<SeedBlock>, b: SeedBlock)
    requires b in blocks
    ensures b.span in BlockWindows(blocks, InstructorKey(b.instructor))
  {
    var n := |blocks| - 1;
    assert blocks == blocks[..n] + [blocks[n]];
    if blocks[n] == b {
      TimesHas([InstructorKey(b.instructor)], InstructorKey(b.instructor), b.span);
    } else {
      BlockShowsUp(blocks[..n], b);
    }
  }

  /** Adding a lesson for a slot just reserved for its instructor, student and vehicle keeps
      the data within the reservations. */
  lemma ReservedLessonKeepsFromPlanner(input: Input, reservations: Reservations, calendars: map<Id, Calendar>,
                                       clock: Clock, request: Request, l: SeedLesson)
    requires FromPlanner(input, reservations)
    requires ReserveOutcome(reservations, calendars, clock, request) == Reserved(l.span)
    requires forall k | k in LessonKeys(l) :: k in ResourceKeys(request)
    ensures FromPlanner(input.(lessons := input.lessons + [l]), AfterReserve(reservations, calendars, clock, request))
  {
    var grown, after := input.(lessons := input.lessons + [l]), AfterReserve(reservations, calendars, clock, request);
    assert (input.lessons + [l])[..|input.lessons|] == input.lessons;
    forall key: Key ensures multiset(WindowsOf(grown, key)) <= multiset(Held(after, key)) {
      PushHolds(reservations, ResourceKeys(request), l.span, key);
      LessonTimesOnce(l, key);
      assert multiset(WindowsOf(input, key)) <= multiset(Held(reservations, key));
    }
  }

  lemma LessonTimesOnce(l: SeedLesson, key: Key)
    ensures Times(LessonKeys(l), key, l.span) == if key in LessonKeys(l) then [l.span] else []
  {
    var keys := LessonKeys(l);
    assert forall i, j | 0 <= i < j < |keys| :: keys[i] != keys[j];
    TimesOnce(keys, key, l.span);
  }

  lemma {:induction false} TimesOnce(keys: seq<Key>, key: Key, w: Window)
    requires forall i, j | 0 <= i < j < |keys| :: keys[i] != keys[j]
    ensures Times(keys, key, w) == if key in keys then [w] else []
  {
    if keys != [] {
      var n := |keys| - 1;
      TimesOnce(keys[..n], key, w);
      assert keys == keys[..n] + [keys[n]];
    }
  }

  /** The same for a block. */
  lemma ReservedBlockKeepsFromPlanner(input: Input, reservations: Reservations, calendars: map<Id, Calendar>,
                                      clock: Clock, request: Request, b: SeedBlock)
    requires FromPlanner(input, reservations) && request.instructor == b.instructor
    requires ReserveOutcome(reservations, calendars, clock, request) == Reserved(b.span)
    ensures FromPlanner(input.(blocks := input.blocks + [b]), AfterReserve(reservations, calendars, clock, request))
  {
    var grown, after := input.(blocks := input.blocks + [b]), AfterReserve(reservations, calendars, clock, request);
    forall key: Key ensures multiset(WindowsOf(grown, key)) <= multiset(Held(after, key)) {
      BlockAppended(input.blocks, b, key);
      PushHolds(reservations, ResourceKeys(request), b.span, key);
      TimesOnce([InstructorKey(b.instructor)], key, b.span);
      assert multiset(WindowsOf(input, key)) <= multiset(Held(reservations, key));
    }
  }

  function Rows(event: Id, students: seq<Id>): seq<Participant> {
    seq(|students|, i requires 0 <= i < |students| => Participant(event, students[i]))
  }

  lemma {:induction false} StudentsConcat(a: seq<Participant>, b: seq<Participant>, event: Id)
    ensures StudentsOf(a + b, event) == StudentsOf(a, event) + StudentsOf(b, event)
  {
    if b == [] {
      assert a + b == a;
    } else {
      assert (a + b)[..|a + b| - 1] == a + b[..|b| - 1];
      StudentsConcat(a, b[..|b| - 1], event);
    }
  }

  lemma {:induction false} StudentsOfRows(event: Id, students: seq<Id>, other: Id)
    ensures StudentsOf(Rows(event, students), other) == if other == event then students else []
  {
    if students != [] {
      var n := |students| - 1;
      StudentsOfRows(event, students[..n], other);
      assert Rows(event, students)[..n] == Rows(event, students[..n]);
    }
  }

  /** Rows of one event do not change what other events collect. */
  lemma {:induction false} OtherEventsKeep(events: seq<SeedEvent>, participants: seq<Participant>, event: Id,
                                           students: seq<Id>, key: Key)
    requires forall e | e in events :: e.id != Some(event)
    ensures EventWindows(events, participants + Rows(event, students), key) == EventWindows(events, participants, key)
  {
    if events != [] {
      var last := events[|events| - 1];
      OtherEventsKeep(events[..|events| - 1], participants, event, students, key);
      if last.id.Some? {
        StudentsConcat(participants, Rows(event, students), last.id.value);
        StudentsOfRows(event, students, last.id.value);
        assert StudentsOf(participants, last.id.value) + [] == StudentsOf(participants, last.id.value);
      }
    }
  }

  lemma {:induction false} StudentKeysDistinct(students: seq<Id>)
    requires forall i, j | 0 <= i < j < |students| :: students[i] != students[j]
    ensures forall i, j | 0 <= i < j < |StudentKeys(students)| :: StudentKeys(students)[i] != StudentKeys(students)[j]
  {
    if students != [] {
      var rest := StudentKeys(students[1..]);
      StudentKeysDistinct(students[1..]);
      assert forall i | 0 <= i < |rest| :: rest[i] in rest;
      assert StudentKeys(students) == [StudentKey(students[0])] + rest;
    }
  }

  predicate DistinctIds(ids: seq<Id>) {
    forall i, j | 0 <= i < j < |ids| :: ids[i] != ids[j]
  }

  lemma EventTimesOnce(e: SeedEvent, students: seq<Id>, key: Key)
    requires DistinctIds(students)
    ensures var keys := [InstructorKey(e.instructor)] + VehicleKeys(e.vehicle) + StudentKeys(students);
            Times(keys, key, e.span) == if key in keys then [e.span] else []
  {
    var keys := [InstructorKey(e.instructor)] + VehicleKeys(e.vehicle) + StudentKeys(students);
    StudentKeysDistinct(students);
    assert forall k | k in StudentKeys(students) :: k.StudentKey?;
    assert forall i | 0 <= i < |StudentKeys(students)| :: StudentKeys(students)[i] in StudentKeys(students);
    TimesOnce(keys, key, e.span);
  }

  /** The same for a new event with its participants, each named once. */
  lemma ReservedEventKeepsFromPlanner(input: Input, reservations: Reservations, calendars: map<Id, Calendar>,
                                      clock: Clock, request: Request, e: SeedEvent, students: seq<Id>)
    requires FromPlanner(input, reservations) && e.id.Some? && DistinctIds(students)
    requires forall other | other in input.events :: other.id != e.id
    requires StudentsOf(input.participants, e.id.value) == []
    requires forall k | k in [InstructorKey(e.instructor)] + VehicleKeys(e.vehicle) + StudentKeys(students) ::
               k in ResourceKeys(request)
    ensures ReserveOutcome(reservations, calendars, clock, request) == Reserved(e.span) ==>
              FromPlanner(input.(events := input.events + [e],
                                 participants := input.participants + Rows(e.id.value, students)),
                          AfterReserve(reservations, calendars, clock, request))
  {
    if ReserveOutcome(reservations, calendars, clock, request) == Reserved(e.span) {
      NewEventKeepsFromPlanner(input, reservations, Push(reservations, ResourceKeys(request), e.span),
                               ResourceKeys(request), e, students);
    }
  }

  lemma NewEventKeepsFromPlanner(input: Input, reservations: Reservations, after: Reservations, keys: seq<Key>,
                                 e: SeedEvent, students: seq<Id>)
    requires FromPlanner(input, reservations) && e.id.Some? && DistinctIds(students)
    requires forall other | other in input.events :: other.id != e.id
    requires StudentsOf(input.participants, e.id.value) == []
    requires forall i, j | 0 <= i < j < |keys| :: keys[i] != keys[j]
    requires forall k | k in [InstructorKey(e.instructor)] + VehicleKeys(e.vehicle) + StudentKeys(students) :: k in keys
    requires after == Push(reservations, keys, e.span)
    ensures FromPlanner(input.(events := input.events + [e],
                               participants := input.participants + Rows(e.id.value, students)), after)
  {
    var rows := input.participants + Rows(e.id.value, students);
    var grown := input.(events := input.events + [e], participants := rows);
    StudentsConcat(input.participants, Rows(e.id.value, students), e.id.value);
    StudentsOfRows(e.id.value, students, e.id.value);
    assert [] + students == students;
    forall key: Key ensures multiset(WindowsOf(grown, key)) <= multiset(Held(after, key)) {
      EventAppended(input.events, rows, e, key);
      OtherEventsKeep(input.events, input.participants, e.id.value, students, key);
      EventTimesOnce(e, students, key);
      PushHolds(reservations, keys, e.span, key);
      assert multiset(WindowsOf(input, key)) <= multiset(Held(reservations, key));
    }
  }
}
