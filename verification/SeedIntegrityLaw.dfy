/** What the integrity check decides, over the rows of the tables: no two counted rows that share
    an instructor, a student or a vehicle overlap, and nobody is listed twice for a counted event. */
module SeedIntegrityLaw {
  import opened Chronology
  import opened TimeWindows
  import opened SeedPlanner
  import opened SeedIntegrity

  // ---------------------------------------------------------------- entries

  /** A counted row: the resources it adds its window to, in the order of the calls. */
  datatype Entry = Entry(keys: seq<Key>, span: Window)

  function Collect(entries: seq<Entry>, key: Key): seq<Window> {
    if entries == [] then []
    else
      var n := |entries| - 1;
      Collect(entries[..n], key) + Times(entries[n].keys, key, entries[n].span)
  }

  function LessonEntries(lessons: seq<SeedLesson>): seq<Entry> {
    if lessons == [] then []
    else
      var n := |lessons| - 1;
      LessonEntries(lessons[..n])
      + if lessons[n].cancelled then [] else [Entry(LessonKeys(lessons[n]), lessons[n].span)]
  }

  function EventEntries(events: seq<SeedEvent>, participants: seq<Participant>): seq<Entry> {
    if events == [] then []
    else
      var n := |events| - 1;
      EventEntries(events[..n], participants)
      + if events[n].skipped || events[n].id.None? then []
        else [Entry(EventKeys(events[n], participants), events[n].span)]
  }

  function BlockEntries(blocks: seq<SeedBlock>): seq<Entry> {
    if blocks == [] then []
    else
      var n := |blocks| - 1;
      BlockEntries(blocks[..n]) + [Entry([InstructorKey(blocks[n].instructor)], blocks[n].span)]
  }

  function Entries(input: Input): seq<Entry> {
    LessonEntries(input.lessons) + EventEntries(input.events, input.participants) + BlockEntries(input.blocks)
  }

  lemma {:induction false} CollectConcat(a: seq<Entry>, b: seq<Entry>, key: Key)
    ensures Collect(a + b, key) == Collect(a, key) + Collect(b, key)
  {
    if b == [] {
      assert a + b == a;
    } else {
      assert (a + b)[..|a + b| - 1] == a + b[..|b| - 1];
      CollectConcat(a, b[..|b| - 1], key);
    }
  }

  lemma CollectOne(e: Entry, key: Key)
    ensures Collect([e], key) == Times(e.keys, key, e.span)
  {
    assert [e][..0] == [];
  }

  lemma {:induction false} LessonsCollected(lessons: seq<SeedLesson>, key: Key)
    ensures Collect(LessonEntries(lessons), key) == LessonWindows(lessons, key)
  {
    if lessons != [] {
      var n := |lessons| - 1;
      var e := Entry(LessonKeys(lessons[n]), lessons[n].span);
      LessonsCollected(lessons[..n], key);
      CollectConcat(LessonEntries(lessons[..n]), [e], key);
      CollectOne(e, key);
      assert LessonEntries(lessons[..n]) + [] == LessonEntries(lessons[..n]);
      assert LessonWindows(lessons[..n], key) + [] == LessonWindows(lessons[..n], key);
    }
  }

  lemma {:induction false} EventsCollected(events: seq<SeedEvent>, participants: seq<Participant>, key: Key)
    ensures Collect(EventEntries(events, participants), key) == EventWindows(events, participants, key)
  {
    if events != [] {
      var n := |events| - 1;
      EventsCollected(events[..n], participants, key);
      assert EventEntries(events[..n], participants) + [] == EventEntries(events[..n], participants);
      assert EventWindows(events[..n], participants, key) + [] == EventWindows(events[..n], participants, key);
      if !events[n].skipped && events[n].id.Some? {
        var e := Entry(EventKeys(events[n], participants), events[n].span);
        CollectConcat(EventEntries(events[..n], participants), [e], key);
        CollectOne(e, key);
      }
    }
  }

  lemma {:induction false} BlocksCollected(blocks: seq<SeedBlock>, key: Key)
    ensures Collect(BlockEntries(blocks), key) == BlockWindows(blocks, key)
  {
    if blocks != [] {
      var n := |blocks| - 1;
      var e := Entry([InstructorKey(blocks[n].instructor)], blocks[n].span);
      BlocksCollected(blocks[..n], key);
      CollectConcat(BlockEntries(blocks[..n]), [e], key);
      CollectOne(e, key);
    }
  }

  lemma EntriesCollected(input: Input, key: Key)
    ensures Collect(Entries(input), key) == WindowsOf(input, key)
  {
    var l, e := LessonEntries(input.lessons), EventEntries(input.events, input.participants);
    CollectConcat(l, e, key);
    CollectConcat(l + e, BlockEntries(input.blocks), key);
    LessonsCollected(input.lessons, key);
    EventsCollected(input.events, input.participants, key);
    BlocksCollected(input.blocks, key);
  }

  // ---------------------------------------------------------------- disjoint entries

  predicate Apart(v: Window, w: Window) {
    v.end <= w.start || w.end <= v.start
  }

  predicate Once(keys: seq<Key>) {
    forall i, j | 0 <= i < j < |keys| :: keys[i] != keys[j]
  }

  predicate EntriesApart(a: Entry, b: Entry) {
    (exists key :: key in a.keys && key in b.keys) ==> Apart(a.span, b.span)
  }

  predicate DisjointEntries(entries: seq<Entry>) {
    && (forall i, j | 0 <= i < j < |entries| :: EntriesApart(entries[i], entries[j]))
    && forall i | 0 <= i < |entries| :: Once(entries[i].keys)
  }

  predicate PositiveEntries(entries: seq<Entry>) {
    forall i | 0 <= i < |entries| :: entries[i].span.start < entries[i].span.end
  }

  lemma {:induction false} TimesMembers(keys: seq<Key>, key: Key, w: Window)
    ensures forall x | x in Times(keys, key, w) :: x == w
    ensures Times(keys, key, w) != [] <==> key in keys
  {
    if keys != [] {
      TimesMembers(keys[..|keys| - 1], key, w);
      assert keys == keys[..|keys| - 1] + [keys[|keys| - 1]];
    }
  }

  ghost predicate AllOnce(keys: seq<Key>, w: Window) {
    forall key: Key :: PairwiseDisjoint(Times(keys, key, w))
  }

  lemma OneMoreTime(s: seq<Window>, w: Window)
    requires w.start < w.end && forall x | x in s :: x == w
    ensures PairwiseDisjoint(s + [w]) <==> s == []
    ensures s + [] == s
  {
    if s != [] {
      assert s[0] in s;
      assert Overlaps((s + [w])[0], (s + [w])[|s|]);
    }
  }

  lemma OneMoreKey(keys: seq<Key>, last: Key, key: Key, w: Window)
    requires w.start < w.end
    ensures PairwiseDisjoint(Times(keys + [last], key, w)) <==>
            if key == last then key !in keys else PairwiseDisjoint(Times(keys, key, w))
  {
    assert (keys + [last])[..|keys|] == keys;
    TimesMembers(keys, key, w);
    OneMoreTime(Times(keys, key, w), w);
  }

  /** A window is added once per resource exactly when the list repeats none. */
  lemma {:induction false} TimesOnce(keys: seq<Key>, w: Window)
    requires w.start < w.end
    ensures AllOnce(keys, w) <==> Once(keys)
  {
    if keys != [] {
      var n := |keys| - 1;
      var rest, last := keys[..n], keys[n];
      assert keys == rest + [last];
      TimesOnce(rest, w);
      assert Once(keys) <==> Once(rest) && last !in rest;
      if AllOnce(keys, w) {
        OneMoreKey(rest, last, last, w);
        assert PairwiseDisjoint(Times(keys, last, w));
        forall key ensures PairwiseDisjoint(Times(rest, key, w)) {
          OneMoreKey(rest, last, key, w);
          TimesMembers(rest, key, w);
          assert PairwiseDisjoint(Times(keys, key, w));
        }
      }
      if AllOnce(rest, w) && last !in rest {
        forall key ensures PairwiseDisjoint(Times(keys, key, w)) {
          OneMoreKey(rest, last, key, w);
          assert PairwiseDisjoint(Times(rest, key, w));
        }
      }
    }
  }

  predicate EntryHas(e: Entry, key: Key, x: Window) {
    key in e.keys && e.span == x
  }

  lemma {:induction false} CollectMembers(entries: seq<Entry>, key: Key, x: Window)
    ensures x in Collect(entries, key) <==> exists i :: 0 <= i < |entries| && EntryHas(entries[i], key, x)
  {
    if entries != [] {
      var n := |entries| - 1;
      var last := Times(entries[n].keys, key, entries[n].span);
      CollectMembers(entries[..n], key, x);
      TimesMembers(entries[n].keys, key, entries[n].span);
      assert last != [] ==> last[0] in last && last[0] == entries[n].span;
      assert forall i | 0 <= i < n :: entries[..n][i] == entries[i];
    }
  }

  lemma DisjointConcat(a: seq<Window>, b: seq<Window>)
    ensures PairwiseDisjoint(a + b) <==>
            PairwiseDisjoint(a) && PairwiseDisjoint(b) && forall x, y | x in a && y in b :: !Overlaps(x, y)
  {
    if PairwiseDisjoint(a + b) {
      forall i, j | 0 <= i < j < |a| ensures !Overlaps(a[i], a[j]) {
        assert (a + b)[i] == a[i] && (a + b)[j] == a[j];
      }
      forall i, j | 0 <= i < j < |b| ensures !Overlaps(b[i], b[j]) {
        assert (a + b)[|a| + i] == b[i] && (a + b)[|a| + j] == b[j];
      }
      forall x, y | x in a && y in b ensures !Overlaps(x, y) {
        var i :| 0 <= i < |a| && a[i] == x;
        var j :| 0 <= j < |b| && b[j] == y;
        assert (a + b)[i] == x && (a + b)[|a| + j] == y;
      }
    }
  }

  ghost predicate AllDisjointIn(entries: seq<Entry>) {
    forall key: Key :: PairwiseDisjoint(Collect(entries, key))
  }

  /** The last entry is apart from every earlier one with which it shares a key. */
  predicate LastApart(entries: seq<Entry>, e: Entry) {
    forall i | 0 <= i < |entries| :: EntriesApart(entries[i], e)
  }

  lemma KeyOfMore(entries: seq<Entry>, e: Entry, key: Key)
    ensures PairwiseDisjoint(Collect(entries + [e], key)) <==>
              && PairwiseDisjoint(Collect(entries, key)) && PairwiseDisjoint(Times(e.keys, key, e.span))
              && (key in e.keys ==> forall x | x in Collect(entries, key) :: !Overlaps(x, e.span))
  {
    CollectConcat(entries, [e], key);
    CollectOne(e, key);
    DisjointConcat(Collect(entries, key), Times(e.keys, key, e.span));
    TimesMembers(e.keys, key, e.span);
    assert key in e.keys ==> Times(e.keys, key, e.span)[0] in Times(e.keys, key, e.span);
  }

  lemma OneMoreEntry(entries: seq<Entry>, e: Entry)
    requires e.span.start < e.span.end
    ensures AllDisjointIn(entries + [e]) <==> AllDisjointIn(entries) && LastApart(entries, e) && Once(e.keys)
  {
    TimesOnce(e.keys, e.span);
    SharedApart(entries, e);
    if AllDisjointIn(entries + [e]) {
      forall key ensures PairwiseDisjoint(Collect(entries, key)) && PairwiseDisjoint(Times(e.keys, key, e.span))
        ensures key in e.keys ==> forall x | x in Collect(entries, key) :: !Overlaps(x, e.span)
      {
        assert PairwiseDisjoint(Collect(entries + [e], key));
        KeyOfMore(entries, e, key);
      }
    }
    if AllDisjointIn(entries) && LastApart(entries, e) && Once(e.keys) {
      forall key ensures PairwiseDisjoint(Collect(entries + [e], key)) {
        assert PairwiseDisjoint(Collect(entries, key)) && PairwiseDisjoint(Times(e.keys, key, e.span));
        KeyOfMore(entries, e, key);
      }
    }
  }

  ghost predicate KeysApart(entries: seq<Entry>, e: Entry) {
    forall key: Key | key in e.keys :: forall x | x in Collect(entries, key) :: !Overlaps(x, e.span)
  }

  lemma SharedApart(entries: seq<Entry>, e: Entry)
    ensures LastApart(entries, e) <==> KeysApart(entries, e)
  {
    if LastApart(entries, e) {
      forall key: Key, x | key in e.keys && x in Collect(entries, key) ensures !Overlaps(x, e.span) {
        CollectMembers(entries, key, x);
        var i :| 0 <= i < |entries| && EntryHas(entries[i], key, x);
        assert EntriesApart(entries[i], e);
      }
    }
    if KeysApart(entries, e) {
      forall i | 0 <= i < |entries| ensures EntriesApart(entries[i], e) {
        if key :| key in entries[i].keys && key in e.keys {
          assert EntryHas(entries[i], key, entries[i].span);
          CollectMembers(entries, key, entries[i].span);
        }
      }
    }
  }

  lemma {:induction false} EntriesDecide(entries: seq<Entry>)
    requires PositiveEntries(entries)
    ensures AllDisjointIn(entries) <==> DisjointEntries(entries)
  {
    if entries != [] {
      var n := |entries| - 1;
      EntriesDecide(entries[..n]);
      OneMoreEntry(entries[..n], entries[n]);
      assert entries == entries[..n] + [entries[n]];
      if DisjointEntries(entries) {
        assert forall i, j | 0 <= i < j < n :: EntriesApart(entries[..n][i], entries[..n][j]);
        assert forall i | 0 <= i < n :: EntriesApart(entries[i], entries[n]);
      }
      if DisjointEntries(entries[..n]) && LastApart(entries[..n], entries[n]) && Once(entries[n].keys) {
        forall i, j | 0 <= i < j < |entries| ensures EntriesApart(entries[i], entries[j]) {
          assert entries[..n][i] == entries[i];
          assert j < n ==> entries[..n][j] == entries[j];
        }
        forall i | 0 <= i < |entries| ensures Once(entries[i].keys) {
          assert i < n ==> entries[..n][i] == entries[i];
        }
      }
    }
  }

  // ---------------------------------------------------------------- rows

  /** The student takes part in the event, by some row of the participants. */
  predicate TakesPart(participants: seq<Participant>, event: Option<Id>, student: Id) {
    exists p :: p in participants && Some(p.event) == event && p.student == student
  }

  lemma {:induction false} StudentsTakePart(participants: seq<Participant>, event: Id, x: Id)
    ensures x in StudentsOf(participants, event) <==> TakesPart(participants, Some(event), x)
  {
    if participants != [] {
      var n := |participants| - 1;
      StudentsTakePart(participants[..n], event, x);
      assert participants == participants[..n] + [participants[n]];
    }
  }

  /** What a row of each table holds. */
  predicate LessonHolds(l: SeedLesson, key: Key) {
    match key
    case InstructorKey(x) => l.instructor == x
    case StudentKey(x) => l.student == x
    case VehicleKey(x) => l.vehicle == Some(x)
  }

  predicate EventHolds(e: SeedEvent, participants: seq<Participant>, key: Key) {
    match key
    case InstructorKey(x) => e.instructor == x
    case StudentKey(x) => TakesPart(participants, e.id, x)
    case VehicleKey(x) => e.vehicle == Some(x)
  }

  lemma LessonKeysMeans(l: SeedLesson, key: Key)
    ensures key in LessonKeys(l) <==> LessonHolds(l, key)
    ensures Once(LessonKeys(l))
  {
  }

  lemma EventKeysMeans(e: SeedEvent, participants: seq<Participant>, key: Key)
    requires e.id.Some?
    ensures key in EventKeys(e, participants) <==> EventHolds(e, participants, key)
  {
    if key.StudentKey? {
      StudentsTakePart(participants, e.id.value, key.id);
    }
  }

  lemma {:induction false} StudentKeysAt(students: seq<Id>)
    ensures |StudentKeys(students)| == |students|
    ensures forall i | 0 <= i < |students| :: StudentKeys(students)[i] == StudentKey(students[i])
  {
    if students != [] {
      StudentKeysAt(students[1..]);
      assert StudentKeys(students) == [StudentKey(students[0])] + StudentKeys(students[1..]);
    }
  }

  lemma StudentKeysOnce(students: seq<Id>)
    ensures Once(StudentKeys(students)) <==> NoRepeats(students)
  {
    StudentKeysAt(students);
  }

  /** No row of the participants repeats an earlier one of the event. */
  predicate ListedOnce(participants: seq<Participant>, event: Id) {
    forall i, j | 0 <= i < j < |participants| && participants[i].event == event && participants[j].event == event ::
      participants[i].student != participants[j].student
  }

  predicate NoRepeats(students: seq<Id>) {
    forall i, j | 0 <= i < j < |students| :: students[i] != students[j]
  }

  lemma NoRepeatsAppend(students: seq<Id>, x: Id)
    ensures NoRepeats(students + [x]) <==> NoRepeats(students) && x !in students
  {
    if NoRepeats(students + [x]) {
      forall i, j | 0 <= i < j < |students| ensures students[i] != students[j] {
        assert (students + [x])[i] == students[i] && (students + [x])[j] == students[j];
      }
      forall i | 0 <= i < |students| ensures students[i] != x {
        assert (students + [x])[i] == students[i] && (students + [x])[|students|] == x;
      }
    }
  }

  lemma {:induction false} StudentsListedOnce(participants: seq<Participant>, event: Id)
    ensures NoRepeats(StudentsOf(participants, event)) <==> ListedOnce(participants, event)
  {
    if participants != [] {
      var n := |participants| - 1;
      var rest, last := participants[..n], participants[n];
      StudentsListedOnce(rest, event);
      ListedOnceAppend(rest, last, event);
      assert participants == rest + [last];
      if last.event == event {
        NoRepeatsAppend(StudentsOf(rest, event), last.student);
        StudentsTakePart(rest, event, last.student);
      } else {
        assert StudentsOf(rest, event) + [] == StudentsOf(rest, event);
      }
    }
  }

  lemma ListedOnceAppend(rest: seq<Participant>, last: Participant, event: Id)
    ensures ListedOnce(rest + [last], event) <==>
            ListedOnce(rest, event) && (last.event == event ==> !TakesPart(rest, Some(event), last.student))
  {
    var all := rest + [last];
    if ListedOnce(all, event) {
      forall i, j | 0 <= i < j < |rest| && rest[i].event == event && rest[j].event == event
        ensures rest[i].student != rest[j].student
      {
        assert all[i] == rest[i] && all[j] == rest[j];
      }
      forall i | 0 <= i < |rest| && rest[i].event == event && last.event == event
        ensures rest[i].student != last.student
      {
        assert all[i] == rest[i] && all[|rest|] == last;
      }
    }
    if ListedOnce(rest, event) && (last.event == event ==> !TakesPart(rest, Some(event), last.student)) {
      forall i, j | 0 <= i < j < |all| && all[i].event == event && all[j].event == event
        ensures all[i].student != all[j].student
      {
        assert all[i] == rest[i] && rest[i] in rest;
        assert j < |rest| ==> all[j] == rest[j];
      }
    }
  }

  lemma OnceConcat(a: seq<Key>, b: seq<Key>)
    requires forall k | k in a :: k !in b
    ensures Once(a + b) <==> Once(a) && Once(b)
  {
    if Once(a + b) {
      forall i, j | 0 <= i < j < |a| ensures a[i] != a[j] {
        assert (a + b)[i] == a[i] && (a + b)[j] == a[j];
      }
      forall i, j | 0 <= i < j < |b| ensures b[i] != b[j] {
        assert (a + b)[|a| + i] == b[i] && (a + b)[|a| + j] == b[j];
      }
    }
    if Once(a) && Once(b) {
      forall i, j | 0 <= i < j < |a + b| ensures (a + b)[i] != (a + b)[j] {
        assert i < |a| ==> (a + b)[i] in a;
        assert j >= |a| ==> (a + b)[j] in b;
      }
    }
  }

  lemma EventKeysOnce(e: SeedEvent, participants: seq<Participant>)
    requires e.id.Some?
    ensures Once(EventKeys(e, participants)) <==> ListedOnce(participants, e.id.value)
  {
    var students := StudentsOf(participants, e.id.value);
    OnceConcat([InstructorKey(e.instructor)] + VehicleKeys(e.vehicle), StudentKeys(students));
    StudentKeysOnce(students);
    StudentsListedOnce(participants, e.id.value);
    assert Once([InstructorKey(e.instructor)] + VehicleKeys(e.vehicle));
  }

  // ---------------------------------------------------------------- rows apart

  predicate LessonPairApart(l: SeedLesson, m: SeedLesson) {
    !l.cancelled && !m.cancelled
    && (l.instructor == m.instructor || l.student == m.student || (l.vehicle.Some? && l.vehicle == m.vehicle))
    ==> Apart(l.span, m.span)
  }

  predicate LessonEventApart(l: SeedLesson, e: SeedEvent, participants: seq<Participant>) {
    !l.cancelled && !e.skipped
    && (l.instructor == e.instructor || TakesPart(participants, e.id, l.student)
        || (l.vehicle.Some? && l.vehicle == e.vehicle))
    ==> Apart(l.span, e.span)
  }

  ghost predicate EventPairApart(d: SeedEvent, e: SeedEvent, participants: seq<Participant>) {
    !d.skipped && !e.skipped
    && (d.instructor == e.instructor || (d.vehicle.Some? && d.vehicle == e.vehicle)
        || exists x: Id :: TakesPart(participants, d.id, x) && TakesPart(participants, e.id, x))
    ==> Apart(d.span, e.span)
  }

  predicate LessonBlockApart(l: SeedLesson, b: SeedBlock) {
    !l.cancelled && l.instructor == b.instructor ==> Apart(l.span, b.span)
  }

  predicate EventBlockApart(e: SeedEvent, b: SeedBlock) {
    !e.skipped && e.instructor == b.instructor ==> Apart(e.span, b.span)
  }

  predicate BlockPairApart(a: SeedBlock, b: SeedBlock) {
    a.instructor == b.instructor ==> Apart(a.span, b.span)
  }

  /** Counted rows that share an instructor, a student or a vehicle do not overlap, and no counted
      event lists a student twice. */
  ghost predicate DisjointRows(input: Input) {
    && (forall i, j | 0 <= i < j < |input.lessons| :: LessonPairApart(input.lessons[i], input.lessons[j]))
    && (forall i, j | 0 <= i < j < |input.events| ::
          EventPairApart(input.events[i], input.events[j], input.participants))
    && (forall i, j | 0 <= i < j < |input.blocks| :: BlockPairApart(input.blocks[i], input.blocks[j]))
    && (forall l, e | l in input.lessons && e in input.events :: LessonEventApart(l, e, input.participants))
    && (forall l, b | l in input.lessons && b in input.blocks :: LessonBlockApart(l, b))
    && (forall e, b | e in input.events && b in input.blocks :: EventBlockApart(e, b))
    && (forall e | e in input.events && !e.skipped && e.id.Some? :: ListedOnce(input.participants, e.id.value))
  }

  function LessonEntry(l: SeedLesson): Entry {
    Entry(LessonKeys(l), l.span)
  }

  function EventEntry(e: SeedEvent, participants: seq<Participant>): Entry
    requires e.id.Some?
  {
    Entry(EventKeys(e, participants), e.span)
  }

  function BlockEntry(b: SeedBlock): Entry {
    Entry([InstructorKey(b.instructor)], b.span)
  }

  lemma LessonPairMeans(l: SeedLesson, m: SeedLesson)
    requires !l.cancelled && !m.cancelled
    ensures EntriesApart(LessonEntry(l), LessonEntry(m)) <==> LessonPairApart(l, m)
  {
    forall key ensures key in LessonKeys(l) <==> LessonHolds(l, key) {
      LessonKeysMeans(l, key);
    }
    forall key ensures key in LessonKeys(m) <==> LessonHolds(m, key) {
      LessonKeysMeans(m, key);
    }
    assert l.instructor == m.instructor ==>
             InstructorKey(l.instructor) in LessonKeys(l) && InstructorKey(l.instructor) in LessonKeys(m);
    assert l.student == m.student ==> StudentKey(l.student) in LessonKeys(l) && StudentKey(l.student) in LessonKeys(m);
    assert l.vehicle.Some? && l.vehicle == m.vehicle ==>
             VehicleKey(l.vehicle.value) in LessonKeys(l) && VehicleKey(l.vehicle.value) in LessonKeys(m);
  }

  lemma LessonEventMeans(l: SeedLesson, e: SeedEvent, participants: seq<Participant>)
    requires !l.cancelled && !e.skipped && e.id.Some?
    ensures EntriesApart(LessonEntry(l), EventEntry(e, participants)) <==> LessonEventApart(l, e, participants)
  {
    forall key ensures key in LessonKeys(l) <==> LessonHolds(l, key) {
      LessonKeysMeans(l, key);
    }
    forall key ensures key in EventKeys(e, participants) <==> EventHolds(e, participants, key) {
      EventKeysMeans(e, participants, key);
    }
    assert l.instructor == e.instructor ==>
             InstructorKey(l.instructor) in LessonKeys(l) && InstructorKey(l.instructor) in EventKeys(e, participants);
    assert TakesPart(participants, e.id, l.student) ==>
             StudentKey(l.student) in LessonKeys(l) && StudentKey(l.student) in EventKeys(e, participants);
    assert l.vehicle.Some? && l.vehicle == e.vehicle ==>
             VehicleKey(l.vehicle.value) in LessonKeys(l) && VehicleKey(l.vehicle.value) in EventKeys(e, participants);
  }

  lemma EventPairMeans(d: SeedEvent, e: SeedEvent, participants: seq<Participant>)
    requires !d.skipped && !e.skipped && d.id.Some? && e.id.Some?
    ensures EntriesApart(EventEntry(d, participants), EventEntry(e, participants)) <==>
            EventPairApart(d, e, participants)
  {
    forall key ensures key in EventKeys(d, participants) <==> EventHolds(d, participants, key) {
      EventKeysMeans(d, participants, key);
    }
    forall key ensures key in EventKeys(e, participants) <==> EventHolds(e, participants, key) {
      EventKeysMeans(e, participants, key);
    }
    assert d.instructor == e.instructor ==>
             && InstructorKey(d.instructor) in EventKeys(d, participants)
             && InstructorKey(d.instructor) in EventKeys(e, participants);
    assert d.vehicle.Some? && d.vehicle == e.vehicle ==>
             && VehicleKey(d.vehicle.value) in EventKeys(d, participants)
             && VehicleKey(d.vehicle.value) in EventKeys(e, participants);
    assert forall x: Id | TakesPart(participants, d.id, x) && TakesPart(participants, e.id, x) ::
             StudentKey(x) in EventKeys(d, participants) && StudentKey(x) in EventKeys(e, participants);
  }

  lemma BlockMeans(b: SeedBlock, entry: Entry)
    ensures EntriesApart(entry, BlockEntry(b)) <==>
            (InstructorKey(b.instructor) in entry.keys ==> Apart(entry.span, b.span))
  {
    assert InstructorKey(b.instructor) in BlockEntry(b).keys;
  }

  // ---------------------------------------------------------------- tables of entries

  predicate CrossApart(a: seq<Entry>, b: seq<Entry>) {
    forall x, y | x in a && y in b :: EntriesApart(x, y)
  }

  lemma DisjointEntriesConcat(a: seq<Entry>, b: seq<Entry>)
    ensures DisjointEntries(a + b) <==> DisjointEntries(a) && DisjointEntries(b) && CrossApart(a, b)
  {
    var all := a + b;
    if DisjointEntries(all) {
      forall i, j | 0 <= i < j < |a| ensures EntriesApart(a[i], a[j]) {
        assert all[i] == a[i] && all[j] == a[j];
      }
      forall i, j | 0 <= i < j < |b| ensures EntriesApart(b[i], b[j]) {
        assert all[|a| + i] == b[i] && all[|a| + j] == b[j];
      }
      forall i | 0 <= i < |a| ensures Once(a[i].keys) {
        assert all[i] == a[i];
      }
      forall i | 0 <= i < |b| ensures Once(b[i].keys) {
        assert all[|a| + i] == b[i];
      }
      forall x, y | x in a && y in b ensures EntriesApart(x, y) {
        var i :| 0 <= i < |a| && a[i] == x;
        var j :| 0 <= j < |b| && b[j] == y;
        assert all[i] == x && all[|a| + j] == y;
      }
    }
  }

  lemma {:induction false} LessonEntryMembers(lessons: seq<SeedLesson>, x: Entry)
    ensures x in LessonEntries(lessons) <==> exists l :: l in lessons && !l.cancelled && x == LessonEntry(l)
  {
    if lessons != [] {
      var n := |lessons| - 1;
      LessonEntryMembers(lessons[..n], x);
      assert lessons == lessons[..n] + [lessons[n]];
    }
  }

  lemma {:induction false} EventEntryMembers(events: seq<SeedEvent>, participants: seq<Participant>, x: Entry)
    ensures x in EventEntries(events, participants) <==>
            exists e :: e in events && !e.skipped && e.id.Some? && x == EventEntry(e, participants)
  {
    if events != [] {
      var n := |events| - 1;
      EventEntryMembers(events[..n], participants, x);
      assert events == events[..n] + [events[n]];
    }
  }

  lemma {:induction false} BlockEntryMembers(blocks: seq<SeedBlock>, x: Entry)
    ensures x in BlockEntries(blocks) <==> exists b :: b in blocks && x == BlockEntry(b)
  {
    if blocks != [] {
      var n := |blocks| - 1;
      BlockEntryMembers(blocks[..n], x);
      assert blocks == blocks[..n] + [blocks[n]];
      assert BlockEntries(blocks) == BlockEntries(blocks[..n]) + [BlockEntry(blocks[n])];
    }
  }

  lemma DisjointEntriesAppend(a: seq<Entry>, e: Entry)
    ensures DisjointEntries(a + [e]) <==> DisjointEntries(a) && Once(e.keys) && forall x | x in a :: EntriesApart(x, e)
  {
    DisjointEntriesConcat(a, [e]);
    assert e in [e];
  }

  predicate LessonsDisjoint(lessons: seq<SeedLesson>) {
    forall i, j | 0 <= i < j < |lessons| :: LessonPairApart(lessons[i], lessons[j])
  }

  lemma {:induction false} LessonEntriesDisjoint(lessons: seq<SeedLesson>)
    ensures DisjointEntries(LessonEntries(lessons)) <==> LessonsDisjoint(lessons)
  {
    if lessons != [] {
      var n := |lessons| - 1;
      var rest, last := lessons[..n], lessons[n];
      LessonEntriesDisjoint(rest);
      LessonsDisjointAppend(rest, last);
      assert lessons == rest + [last];
      if last.cancelled {
        assert LessonEntries(rest) + [] == LessonEntries(rest);
      } else {
        DisjointEntriesAppend(LessonEntries(rest), LessonEntry(last));
        LessonKeysMeans(last, InstructorKey(0));
        LastLessonApart(rest, last);
      }
    }
  }

  lemma LessonsDisjointAppend(rest: seq<SeedLesson>, last: SeedLesson)
    ensures LessonsDisjoint(rest + [last]) <==>
            LessonsDisjoint(rest) && forall l | l in rest :: LessonPairApart(l, last)
  {
    var all := rest + [last];
    if LessonsDisjoint(all) {
      forall i, j | 0 <= i < j < |rest| ensures LessonPairApart(rest[i], rest[j]) {
        assert all[i] == rest[i] && all[j] == rest[j];
      }
      forall l | l in rest ensures LessonPairApart(l, last) {
        var i :| 0 <= i < |rest| && rest[i] == l;
        assert all[i] == l && all[|rest|] == last;
      }
    }
  }

  lemma LastLessonApart(rest: seq<SeedLesson>, last: SeedLesson)
    requires !last.cancelled
    ensures (forall x | x in LessonEntries(rest) :: EntriesApart(x, LessonEntry(last))) <==>
            forall l | l in rest :: LessonPairApart(l, last)
  {
    if forall x | x in LessonEntries(rest) :: EntriesApart(x, LessonEntry(last)) {
      forall l | l in rest && !l.cancelled ensures LessonPairApart(l, last) {
        LessonEntryMembers(rest, LessonEntry(l));
        LessonPairMeans(l, last);
      }
    }
    if forall l | l in rest :: LessonPairApart(l, last) {
      forall x | x in LessonEntries(rest) ensures EntriesApart(x, LessonEntry(last)) {
        LessonEntryMembers(rest, x);
        var l :| l in rest && !l.cancelled && x == LessonEntry(l);
        LessonPairMeans(l, last);
      }
    }
  }

  ghost predicate EventsDisjoint(events: seq<SeedEvent>, participants: seq<Participant>) {
    && (forall i, j | 0 <= i < j < |events| :: EventPairApart(events[i], events[j], participants))
    && forall e | e in events && !e.skipped && e.id.Some? :: ListedOnce(participants, e.id.value)
  }

  predicate EventsNamed(events: seq<SeedEvent>) {
    forall e | e in events && !e.skipped :: e.id.Some?
  }

  lemma {:induction false} EventEntriesDisjoint(events: seq<SeedEvent>, participants: seq<Participant>)
    requires EventsNamed(events)
    ensures DisjointEntries(EventEntries(events, participants)) <==> EventsDisjoint(events, participants)
  {
    if events != [] {
      var n := |events| - 1;
      var rest, last := events[..n], events[n];
      assert events == rest + [last];
      EventEntriesDisjoint(rest, participants);
      EventsDisjointAppend(rest, last, participants);
      if last.skipped {
        assert EventEntries(rest, participants) + [] == EventEntries(rest, participants);
      } else {
        DisjointEntriesAppend(EventEntries(rest, participants), EventEntry(last, participants));
        EventKeysOnce(last, participants);
        LastEventApart(rest, last, participants);
      }
    }
  }

  lemma EventsDisjointAppend(rest: seq<SeedEvent>, last: SeedEvent, participants: seq<Participant>)
    ensures EventsDisjoint(rest + [last], participants) <==>
              && EventsDisjoint(rest, participants) && (forall e | e in rest :: EventPairApart(e, last, participants))
              && (!last.skipped && last.id.Some? ==> ListedOnce(participants, last.id.value))
  {
    var all := rest + [last];
    assert forall e :: e in all <==> e in rest || e == last;
    if EventsDisjoint(all, participants) {
      forall i, j | 0 <= i < j < |rest| ensures EventPairApart(rest[i], rest[j], participants) {
        assert all[i] == rest[i] && all[j] == rest[j];
      }
      forall e | e in rest ensures EventPairApart(e, last, participants) {
        var i :| 0 <= i < |rest| && rest[i] == e;
        assert all[i] == e && all[|rest|] == last;
      }
    }
    if EventsDisjoint(rest, participants) && (forall e | e in rest :: EventPairApart(e, last, participants)) {
      forall i, j | 0 <= i < j < |all| ensures EventPairApart(all[i], all[j], participants) {
        assert all[i] == rest[i] && rest[i] in rest;
        assert j < |rest| ==> all[j] == rest[j];
      }
    }
  }

  lemma LastEventApart(rest: seq<SeedEvent>, last: SeedEvent, participants: seq<Participant>)
    requires EventsNamed(rest) && !last.skipped && last.id.Some?
    ensures (forall x | x in EventEntries(rest, participants) :: EntriesApart(x, EventEntry(last, participants))) <==>
            forall e | e in rest :: EventPairApart(e, last, participants)
  {
    if forall x | x in EventEntries(rest, participants) :: EntriesApart(x, EventEntry(last, participants)) {
      forall e | e in rest && !e.skipped ensures EventPairApart(e, last, participants) {
        EventEntryMembers(rest, participants, EventEntry(e, participants));
        EventPairMeans(e, last, participants);
      }
    }
    if forall e | e in rest :: EventPairApart(e, last, participants) {
      forall x | x in EventEntries(rest, participants) ensures EntriesApart(x, EventEntry(last, participants)) {
        EventEntryMembers(rest, participants, x);
        var e :| e in rest && !e.skipped && e.id.Some? && x == EventEntry(e, participants);
        EventPairMeans(e, last, participants);
      }
    }
  }

  predicate BlocksDisjoint(blocks: seq<SeedBlock>) {
    forall i, j | 0 <= i < j < |blocks| :: BlockPairApart(blocks[i], blocks[j])
  }

  lemma {:induction false} BlockEntriesAt(blocks: seq<SeedBlock>)
    ensures |BlockEntries(blocks)| == |blocks|
    ensures forall i | 0 <= i < |blocks| :: BlockEntries(blocks)[i] == BlockEntry(blocks[i])
  {
    if blocks != [] {
      var n := |blocks| - 1;
      BlockEntriesAt(blocks[..n]);
      assert BlockEntries(blocks) == BlockEntries(blocks[..n]) + [BlockEntry(blocks[n])];
    }
  }

  lemma BlockPairMeans(a: SeedBlock, b: SeedBlock)
    ensures EntriesApart(BlockEntry(a), BlockEntry(b)) <==> BlockPairApart(a, b)
    ensures Once(BlockEntry(a).keys)
  {
    BlockMeans(b, BlockEntry(a));
  }

  lemma BlockEntriesDisjoint(blocks: seq<SeedBlock>)
    ensures DisjointEntries(BlockEntries(blocks)) <==> BlocksDisjoint(blocks)
  {
    var all := BlockEntries(blocks);
    BlockEntriesAt(blocks);
    forall i, j | 0 <= i < |blocks| && 0 <= j < |blocks|
      ensures (EntriesApart(all[i], all[j]) <==> BlockPairApart(blocks[i], blocks[j])) && Once(all[i].keys)
    {
      BlockPairMeans(blocks[i], blocks[j]);
    }
  }

  // ---------------------------------------------------------------- across tables

  lemma LessonsAcrossEvents(lessons: seq<SeedLesson>, events: seq<SeedEvent>, participants: seq<Participant>)
    requires EventsNamed(events)
    ensures CrossApart(LessonEntries(lessons), EventEntries(events, participants)) <==>
            forall l, e | l in lessons && e in events :: LessonEventApart(l, e, participants)
  {
    var a, b := LessonEntries(lessons), EventEntries(events, participants);
    if CrossApart(a, b) {
      forall l, e | l in lessons && e in events && !l.cancelled && !e.skipped
        ensures LessonEventApart(l, e, participants)
      {
        LessonEntryMembers(lessons, LessonEntry(l));
        EventEntryMembers(events, participants, EventEntry(e, participants));
        LessonEventMeans(l, e, participants);
      }
    }
    if forall l, e | l in lessons && e in events :: LessonEventApart(l, e, participants) {
      forall x, y | x in a && y in b ensures EntriesApart(x, y) {
        LessonEntryMembers(lessons, x);
        EventEntryMembers(events, participants, y);
        var l :| l in lessons && !l.cancelled && x == LessonEntry(l);
        var e :| e in events && !e.skipped && e.id.Some? && y == EventEntry(e, participants);
        LessonEventMeans(l, e, participants);
      }
    }
  }

  lemma LessonsAcrossBlocks(lessons: seq<SeedLesson>, blocks: seq<SeedBlock>)
    ensures CrossApart(LessonEntries(lessons), BlockEntries(blocks)) <==>
            forall l, b | l in lessons && b in blocks :: LessonBlockApart(l, b)
  {
    var a, c := LessonEntries(lessons), BlockEntries(blocks);
    if CrossApart(a, c) {
      forall l, b | l in lessons && b in blocks && !l.cancelled ensures LessonBlockApart(l, b) {
        LessonEntryMembers(lessons, LessonEntry(l));
        BlockEntryMembers(blocks, BlockEntry(b));
        BlockMeans(b, LessonEntry(l));
        LessonKeysMeans(l, InstructorKey(b.instructor));
      }
    }
    if forall l, b | l in lessons && b in blocks :: LessonBlockApart(l, b) {
      forall x, y | x in a && y in c ensures EntriesApart(x, y) {
        LessonEntryMembers(lessons, x);
        BlockEntryMembers(blocks, y);
        var l :| l in lessons && !l.cancelled && x == LessonEntry(l);
        var b :| b in blocks && y == BlockEntry(b);
        BlockMeans(b, x);
        LessonKeysMeans(l, InstructorKey(b.instructor));
      }
    }
  }

  lemma EventBlockMeans(e: SeedEvent, b: SeedBlock, participants: seq<Participant>)
    requires !e.skipped && e.id.Some?
    ensures EntriesApart(EventEntry(e, participants), BlockEntry(b)) <==> EventBlockApart(e, b)
  {
    BlockMeans(b, EventEntry(e, participants));
    EventKeysMeans(e, participants, InstructorKey(b.instructor));
  }

  predicate EventsBlocksApart(events: seq<SeedEvent>, blocks: seq<SeedBlock>) {
    forall e, b | e in events && b in blocks :: EventBlockApart(e, b)
  }

  lemma EventsAcrossBlocks(events: seq<SeedEvent>, participants: seq<Participant>, blocks: seq<SeedBlock>)
    requires EventsNamed(events)
    ensures CrossApart(EventEntries(events, participants), BlockEntries(blocks)) <==> EventsBlocksApart(events, blocks)
  {
    var a, c := EventEntries(events, participants), BlockEntries(blocks);
    if CrossApart(a, c) {
      forall e, b | e in events && b in blocks && !e.skipped ensures EventBlockApart(e, b) {
        EventEntryMembers(events, participants, EventEntry(e, participants));
        BlockEntryMembers(blocks, BlockEntry(b));
        EventBlockMeans(e, b, participants);
      }
    }
    if EventsBlocksApart(events, blocks) {
      forall x, y | x in a && y in c ensures EntriesApart(x, y) {
        EventEntryMembers(events, participants, x);
        BlockEntryMembers(blocks, y);
        var e :| e in events && !e.skipped && e.id.Some? && x == EventEntry(e, participants);
        var b :| b in blocks && y == BlockEntry(b);
        EventBlockMeans(e, b, participants);
      }
    }
  }

  lemma CrossConcat(a: seq<Entry>, b: seq<Entry>, c: seq<Entry>)
    ensures CrossApart(a + b, c) <==> CrossApart(a, c) && CrossApart(b, c)
  {
    assert forall x :: x in a + b <==> x in a || x in b;
  }

  lemma EntriesArePositive(input: Input)
    requires ValidEntries(input)
    ensures PositiveEntries(Entries(input)) && EventsNamed(input.events)
  {
    forall x | x in Entries(input) ensures x.span.start < x.span.end {
      LessonEntryMembers(input.lessons, x);
      EventEntryMembers(input.events, input.participants, x);
      BlockEntryMembers(input.blocks, x);
    }
  }

  lemma DisjointEntriesMeans(input: Input)
    requires EventsNamed(input.events)
    ensures DisjointEntries(Entries(input)) <==> DisjointRows(input)
  {
    var l, e := LessonEntries(input.lessons), EventEntries(input.events, input.participants);
    var b := BlockEntries(input.blocks);
    DisjointEntriesConcat(l + e, b);
    DisjointEntriesConcat(l, e);
    CrossConcat(l, e, b);
    LessonEntriesDisjoint(input.lessons);
    EventEntriesDisjoint(input.events, input.participants);
    BlockEntriesDisjoint(input.blocks);
    LessonsAcrossEvents(input.lessons, input.events, input.participants);
    LessonsAcrossBlocks(input.lessons, input.blocks);
    EventsAcrossBlocks(input.events, input.participants, input.blocks);
  }

  /** The check accepts exactly the tables whose counted rows have a positive length and, if events,
      an id; in which no two counted rows that share an instructor, a student or a vehicle overlap;
      and which list no student twice for a counted event. */
  lemma AcceptedExactly(input: Input)
    ensures ValidEntries(input) && DisjointResources(input) <==>
              && (forall l | l in input.lessons && !l.cancelled :: l.span.start < l.span.end)
              && (forall e | e in input.events && !e.skipped :: e.id.Some? && e.span.start < e.span.end)
              && (forall b | b in input.blocks :: b.span.start < b.span.end)
              && DisjointRows(input)
  {
    if ValidEntries(input) {
      EntriesArePositive(input);
      EntriesDecide(Entries(input));
      DisjointEntriesMeans(input);
      forall key ensures Collect(Entries(input), key) == WindowsOf(input, key) {
        EntriesCollected(input, key);
      }
      assert AllDisjointIn(Entries(input)) <==> DisjointResources(input);
    }
  }
}
