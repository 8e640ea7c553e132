/** Writes that take each other back: cancelling a booking, deleting a new event and removing
    an assigned student restore what every resource holds; a replacement overwrites the last. */
module ScheduleUndo {
  import opened Chronology
  import opened TimeWindows
  import opened Schedule
  import opened ScheduleSafety
  import opened SchedulePackage

  ghost predicate HeldAlike(s: Schedule, t: Schedule, k: Key) {
    forall r :: (Holds(s, k, r) <==> Holds(t, k, r)) && (Holds(s, k, r) ==> SpanOf(s, k) == SpanOf(t, k))
  }

  /** Every resource holds the same commitments in both. */
  ghost predicate SameCommitments(s: Schedule, t: Schedule) {
    forall k :: HeldAlike(s, t, k)
  }

  /** Then every conflict query has the same answer. */
  lemma SameAnswers(s: Schedule, t: Schedule, r: Resource, span: Window, except: Option<Key>)
    requires SameCommitments(s, t)
    ensures Taken(s, r, span, except) <==> Taken(t, r, span, except)
  {
    QueriesAreExact(s, r, span, except);
    QueriesAreExact(t, r, span, except);
    forall k | except != Some(k) ensures Holds(s, k, r) <==> Holds(t, k, r)
      ensures Holds(s, k, r) ==> SpanOf(s, k) == SpanOf(t, k)
    {
      assert HeldAlike(s, t, k);
    }
  }

  /** Cancelling takes one lesson from its resources and leaves every other commitment. */
  lemma CancelFreesExactly(s: Schedule, i: nat, canceller: Option<Id>, now: int)
    requires CancelLesson(s, i, canceller, now).Ok?
    ensures var t := CancelLesson(s, i, canceller, now).value;
            && (forall r :: !Holds(t, LessonKey(i), r))
            && (forall k | k != LessonKey(i) :: HeldAlike(s, t, k))
            && s.lessons[i].span.start > now
    ensures forall course, student ::
              BookedMinutes(CancelLesson(s, i, canceller, now).value.lessons, course, student, None)
              == BookedMinutes(s.lessons, course, student, None) - Share(s.lessons[i], course, student)
  {
    var l := s.lessons[i].(status := Cancelled);
    PutLesson(s, i, l);
    var t := CancelLesson(s, i, canceller, now).value;
    forall k | k != LessonKey(i) ensures HeldAlike(s, t, k) {
      assert SameRow(s, t, k);
    }
    forall course, student
      ensures BookedMinutes(t.lessons, course, student, None)
           == BookedMinutes(s.lessons, course, student, None) - Share(s.lessons[i], course, student)
    {
      BookedAfterWrite(s.lessons, course, student, i, l);
    }
  }

  /** A booking that is cancelled leaves no trace in what anybody holds or has used up. */
  lemma CancelUndoesBooking(s: Schedule, course: Id, student: Id, instructor: Id, span: Window, choice: VehicleChoice,
                            canceller: Option<Id>, now: int)
    requires BookLesson(s, course, student, instructor, span, choice).Ok?
    requires CancelLesson(BookLesson(s, course, student, instructor, span, choice).value,
                          |s.lessons|, canceller, now).Ok?
    ensures var t := BookLesson(s, course, student, instructor, span, choice).value;
            var u := CancelLesson(t, |s.lessons|, canceller, now).value;
            && SameCommitments(s, u) && u.events == s.events && u.courses == s.courses
            && forall c, x :: BookedMinutes(u.lessons, c, x, None) == BookedMinutes(s.lessons, c, x, None)
  {
    var i := |s.lessons|;
    var t := BookLesson(s, course, student, instructor, span, choice).value;
    var u := CancelLesson(t, i, canceller, now).value;
    var row := t.lessons[i];
    PutLesson(s, i, row);
    CancelFreesExactly(t, i, canceller, now);
    forall k ensures HeldAlike(s, u, k) {
      if k != LessonKey(i) {
        assert SameRow(s, t, k) && HeldAlike(t, u, k);
      }
    }
    forall c, x ensures BookedMinutes(u.lessons, c, x, None) == BookedMinutes(s.lessons, c, x, None) {
      BookedAfterAppend(s.lessons, c, x, row);
    }
  }

  lemma DeleteUndoesCreation(s: Schedule, instructor: Id, course: Option<Id>, kind: EventKind, span: Window,
                             vehicle: Option<Id>, capacity: Option<nat>)
    requires CreateEvent(s, instructor, course, kind, span, vehicle, capacity).Ok?
    ensures var t := CreateEvent(s, instructor, course, kind, span, vehicle, capacity).value;
            var u := DeleteEvent(t, |s.events|, t.events[|s.events|]);
            u.Ok? && SameCommitments(s, u.value) && u.value.lessons == s.lessons
  {
    var i := |s.events|;
    var t := CreateEvent(s, instructor, course, kind, span, vehicle, capacity).value;
    var e := t.events[i];
    PutEvent(s, i, e);
    PutEvent(t, i, e.(active := false));
    var u := DeleteEvent(t, i, t.events[i]).value;
    forall k ensures HeldAlike(s, u, k) {
      if k != EventKey(i) {
        assert SameRow(s, t, k) && SameRow(t, u, k);
      }
    }
  }

  /** Assigning a student and removing the same student gives back the very same tables,
      whatever row of the event either request read. */
  lemma RemoveUndoesAssignment(s: Schedule, i: nat, seen: Event, later: Event, student: Id)
    requires AssignStudents(s, i, seen, [student]).Ok? && student !in s.events[i].participants
    requires later.active && later.kind == Theory
    ensures RemoveStudent(AssignStudents(s, i, seen, [student]).value, i, later, student) == Ok(s)
  {
    var e, t := s.events[i], AssignStudents(s, i, seen, [student]).value;
    assert ToSet([student]) - e.participants == {student};
    assert t.events[i].participants - {student} == e.participants;
    assert t.events[i := e] == s.events;
  }

  /** The checks of a replacement do not look at the event's own participants, so the last
      replacement wins. */
  lemma LastReplacementWins(s: Schedule, i: nat, seen: Event, later: Event, first: seq<Id>, second: seq<Id>)
    requires ReplaceStudents(s, i, seen, first).Ok?
    ensures ReplaceStudents(ReplaceStudents(s, i, seen, first).value, i, later, second)
         == ReplaceStudents(s, i, later, second)
  {
    var t := ReplaceStudents(s, i, seen, first).value;
    forall p: Id ensures ParticipantTaken(t, Some(i), p, later.span) <==> ParticipantTaken(s, Some(i), p, later.span) {
      TakenAlike(s, t, i, p, later.span);
    }
    var next := s.events[i].(participants := ToSet(second));
    assert t.events[i := next] == s.events[i := next];
  }

  lemma TakenAlike(s: Schedule, t: Schedule, i: nat, p: Id, span: Window)
    requires i < |s.events| && t.lessons == s.lessons && |t.events| == |s.events|
    requires forall j | 0 <= j < |s.events| && j != i :: t.events[j] == s.events[j]
    ensures ParticipantTaken(t, Some(i), p, span) <==> ParticipantTaken(s, Some(i), p, span)
  {
    assert StudentHasLesson(t, p, span, None) <==> StudentHasLesson(s, p, span, None) by {
      assert forall j | 0 <= j < |s.lessons| :: LessonTakes(t, j, span, None) <==> LessonTakes(s, j, span, None);
    }
    assert StudentHasEvent(t, p, span, Some(i)) <==> StudentHasEvent(s, p, span, Some(i)) by {
      assert forall j | 0 <= j < |s.events| :: EventTakes(t, j, span, Some(i)) <==> EventTakes(s, j, span, Some(i));
    }
  }
}
