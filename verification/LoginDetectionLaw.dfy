/** What the detector promises, over the failures that were recorded and with nothing named but
    instants, ids and counts: five failures of one account, or twenty from one address, within
    ten minutes raise an alarm, and only they do. */
module LoginDetectionLaw {
  import opened Chronology
  import opened LoginDetection

  /** The failure was recorded in the run. */
  predicate WasRecorded(steps: seq<Step>, e: Failure) {
    exists i :: 0 <= i < |steps| && steps[i] == RecordStep(e)
  }

  predicate DeletesBefore(d: Option<Deletion>, t: int) {
    d.Some? ==> d.value.cutoff <= t
  }

  /** The step deletes nothing from instant `t` on. */
  predicate Spares(step: Step, t: int) {
    match step
    case PruneRowsStep(cutoff, _) => cutoff <= t
    case WorkAmidStep(gaps) =>
      forall i | 0 <= i < |gaps| :: DeletesBefore(gaps[i].beforeCount, t) && DeletesBefore(gaps[i].beforeNearby, t)
    case _ => true
  }

  predicate AllSpare(steps: seq<Step>, t: int) {
    forall i | 0 <= i < |steps| :: Spares(steps[i], t)
  }

  /** The failures lie in the ten minutes that end with `e`; at one instant the id decides. */
  predicate UpTo(group: set<Failure>, e: Failure) {
    forall f | f in group ::
      f.at > e.at - 600_000 && (f.at < e.at || (f.at == e.at && f.id <= e.id))
  }

  predicate Enough(rule: Rule, count: nat) {
    match rule case Account => count >= 5 case Ip => count >= 20
  }

  // ---------------------------------------------------------------- what is in the log

  /** The horizon is not after any instant from which nothing was deleted. */
  lemma {:induction false} LaterAmidSpares(horizon: Option<int>, gaps: seq<Gap>, n: nat, t: int)
    requires (horizon.Some? ==> horizon.value <= t) && Spares(WorkAmidStep(gaps), t)
    ensures LaterAmid(horizon, gaps, n).Some? ==> LaterAmid(horizon, gaps, n).value <= t
  {
    if n > 0 {
      LaterAmidSpares(horizon, gaps, n - 1, t);
    }
  }

  lemma {:induction false} HorizonSpares(steps: seq<Step>, t: int)
    requires AllSpare(steps, t)
    ensures Horizon(steps).Some? ==> Horizon(steps).value <= t
  {
    if steps != [] {
      var n := |steps| - 1;
      HorizonSpares(steps[..n], t);
      if steps[n].WorkAmidStep? {
        LaterAmidSpares(Horizon(steps[..n]), steps[n].gaps, BATCH, t);
      }
    }
  }

  /** The smaller log lacks nothing from instant `t` on. */
  predicate KeepsFrom(large: set<Failure>, small: set<Failure>, t: int) {
    small <= large && forall f | f in large && f.at >= t :: f in small
  }

  lemma {:induction false} ReplayKeepsFrom(r: Replay, gaps: seq<Gap>, batch: seq<Failure>, t: int)
    requires Spares(WorkAmidStep(gaps), t)
    ensures KeepsFrom(r.store.failures, ReplayAll(r, gaps, batch).store.failures, t)
  {
    if batch != [] {
      var n := |batch| - 1;
      ReplayKeepsFrom(r, gaps, batch[..n], t);
      var gap := GapAt(gaps, n);
      assert DeletesBefore(gap.beforeCount, t) && DeletesBefore(gap.beforeNearby, t);
    }
  }

  lemma StepKeepsFrom(s: Store, step: Step, t: int)
    requires Spares(step, t)
    ensures KeepsFrom(s.failures + if step.RecordStep? then {step.e} else {}, Apply(s, step).failures, t)
    ensures Apply(s, step).rule == s.rule
  {
    match step
    case WorkAmidStep(gaps) =>
      if Unfinished(s) {
        ReplayKeepsFrom(Replay(s, s.row.value.nextEligibleAt), gaps, Batch(s), t);
        ReplayKeepsRow(Replay(s, s.row.value.nextEligibleAt), gaps, Batch(s));
      }
    case _ =>
  }

  /** The log holds only recorded failures, and every recorded one from which on nothing was deleted. */
  lemma {:induction false} LogHoldsRecorded(rule: Rule, steps: seq<Step>, t: int)
    requires AllSpare(steps, t)
    ensures forall e | e in Run(rule, steps).failures :: WasRecorded(steps, e)
    ensures forall e: Failure | WasRecorded(steps, e) && e.at >= t :: e in Run(rule, steps).failures
    ensures Run(rule, steps).rule == rule
  {
    if steps != [] {
      var n := |steps| - 1;
      LogHoldsRecorded(rule, steps[..n], t);
      StepKeepsFrom(Run(rule, steps[..n]), steps[n], t);
      forall e: Failure ensures WasRecorded(steps, e) <==> WasRecorded(steps[..n], e) || steps[n] == RecordStep(e) {
        if WasRecorded(steps[..n], e) {
          var i :| 0 <= i < n && steps[..n][i] == RecordStep(e);
          assert steps[i] == RecordStep(e);
        }
        if WasRecorded(steps, e) && steps[n] != RecordStep(e) {
          var i :| 0 <= i < |steps| && steps[i] == RecordStep(e);
          assert steps[..n][i] == RecordStep(e);
        }
      }
    }
  }

  // ---------------------------------------------------------------- the law

  /** Nothing is queued that the worker has not treated. */
  predicate Quiet(s: Store) {
    s.row.Some? ==> s.row.value.done == s.row.value.queued
  }

  /** Enough failures up to `e` make it hot, and a hot one has such a group behind it. */
  lemma GroupIsHot(failures: set<Failure>, rule: Rule, e: Failure, group: set<Failure>)
    requires group <= failures && UpTo(group, e) && Enough(rule, |group|)
    ensures Hot(failures, rule, e)
  {
    SubsetSize(group, WindowOf(failures, e));
  }

  lemma HotHasGroup(failures: set<Failure>, rule: Rule, e: Failure) returns (group: set<Failure>)
    requires Hot(failures, rule, e)
    ensures group <= failures && UpTo(group, e) && Enough(rule, |group|) && (e in failures ==> e in group)
  {
    group := WindowOf(failures, e);
  }

  /** In every run, wherever nothing is left to treat: five recorded failures of an account, or
      twenty from an address, within the ten minutes up to a failure give an alarm less than ten
      minutes from it, if nothing of those ten minutes was deleted. */
  lemma EnoughFailuresRaiseAnAlarm(rule: Rule, steps: seq<Step>, e: Failure, group: set<Failure>)
    requires Quiet(Run(rule, steps)) && AllSpare(steps, e.at - 600_000)
    requires WasRecorded(steps, e) && (forall f | f in group :: WasRecorded(steps, f))
    requires UpTo(group, e) && Enough(rule, |group|)
    ensures exists a :: a in Run(rule, steps).alarms && e.at - 600_000 < a.at < e.at + 600_000
  {
    var s := Run(rule, steps);
    NoLostWakeUp(rule, steps);
    QuiescentRunsAreMaximal(rule, steps);
    LogHoldsRecorded(rule, steps, e.at - 600_000);
    HorizonSpares(steps, e.at - 600_000);
    GroupIsHot(s.failures, rule, e, group);
    assert Covered(s, s.alarms, Horizon(steps), e);
    var a :| a in s.alarms && Near(a, e);
  }

  /** And every alarm sits on a recorded failure with that many up to it. */
  lemma AlarmsHaveEnoughFailures(rule: Rule, steps: seq<Step>, a: Failure) returns (group: set<Failure>)
    requires Quiet(Run(rule, steps)) && AllSpare(steps, a.at - 600_000) && a in Run(rule, steps).alarms
    ensures a in group && UpTo(group, a) && Enough(rule, |group|) && forall f | f in group :: WasRecorded(steps, f)
  {
    var s := Run(rule, steps);
    NoLostWakeUp(rule, steps);
    QuiescentRunsAreMaximal(rule, steps);
    LogHoldsRecorded(rule, steps, a.at - 600_000);
    HorizonSpares(steps, a.at - 600_000);
    group := HotHasGroup(s.failures, rule, a);
  }

  /** Two alarms are never less than ten minutes apart, at whatever moment of the run. */
  lemma AlarmsAreApart(rule: Rule, steps: seq<Step>, a: Failure, b: Failure)
    requires a in Run(rule, steps).alarms && b in Run(rule, steps).alarms && a != b
    ensures a.at + 600_000 <= b.at || b.at + 600_000 <= a.at
  {
    RunKeepsInv(rule, steps);
    assert !Near(a, b);
  }

  predicate Beyond(cursor: Option<Stamp>, f: Failure) {
    cursor.Some? ==> f.at > cursor.value.at || (f.at == cursor.value.at && f.id > cursor.value.id)
  }

  function Waiting(s: Store): set<Failure>
    requires s.row.Some?
  {
    set f | f in s.failures && Beyond(s.row.value.cursor, f)
  }

  /** A batch treats the next twenty failures past the cursor, or all that are left. */
  lemma TwentyAtATime(s: Store)
    requires s.row.Some? && s.row.value.done < s.row.value.queued
    ensures var t := Work(s);
            && t.row.Some? && t.failures == s.failures && s.alarms <= t.alarms
            && |Waiting(t)| == (if |Waiting(s)| > 20 then |Waiting(s)| - 20 else 0)
            && t.row.value.queued == s.row.value.queued
            && t.row.value.done == if |Waiting(s)| > 20 then s.row.value.done else s.row.value.queued
  {
    WorkProgresses(s);
    assert Waiting(s) == Pending(s.failures, s.row.value.cursor);
    assert Waiting(Work(s)) == Pending(Work(s).failures, Work(s).row.value.cursor);
    ScanOnlyAdds(s.failures, s.rule, Scan(s.alarms, s.row.value.nextEligibleAt), Batch(s));
  }

  lemma {:induction false} ScanOnlyAdds(failures: set<Failure>, rule: Rule, scan: Scan, batch: seq<Failure>)
    ensures scan.alarms <= ScanAll(failures, rule, scan, batch).alarms
  {
    if batch != [] {
      ScanOnlyAdds(failures, rule, scan, batch[..|batch| - 1]);
    }
  }

  // ---------------------------------------------------------------- one step

  /** A recorded failure waits for the worker, and one that comes late makes it treat again
      everything from its instant on, with no deadline kept. */
  lemma RecordingIsExact(s: Store, e: Failure)
    ensures var t := Record(s, e);
            && t == s.(failures := s.failures + {e}, row := t.row) && t.row.Some?
            && t.row.value.lastActiveAt == e.at
            && (s.row.None? ==> t.row.value == KeyState(1, 0, None, None, e.at))
            && (s.row.Some? ==> t.row.value.queued == s.row.value.queued + 1 && t.row.value.done == s.row.value.done)
            && (s.row.None? || s.row.value.cursor.None? || s.row.value.cursor.value.at < e.at ==>
                  && Waiting(t) == {e} + (if s.row.Some? then Waiting(s) else s.failures)
                  && (s.row.Some? ==> t.row.value.cursor == s.row.value.cursor
                                      && t.row.value.nextEligibleAt == s.row.value.nextEligibleAt))
            && (s.row.Some? && s.row.value.cursor.Some? && s.row.value.cursor.value.at >= e.at ==>
                  && t.row.value.nextEligibleAt.None? && t.row.value.cursor == Some(Stamp(e.at - 1, 0))
                  && forall f | f in t.failures && f.at >= e.at :: f in Waiting(t))
  {
  }

  /** The failures counted for `e`. */
  function Group(failures: set<Failure>, e: Failure): set<Failure> {
    set f | f in failures && f.at > e.at - 600_000 && (f.at < e.at || (f.at == e.at && f.id <= e.id))
  }

  predicate Within(alarms: set<Failure>, e: Failure, a: Failure) {
    a in alarms && e.at - 600_000 < a.at < e.at + 600_000
  }

  predicate Skipped(failures: set<Failure>, rule: Rule, deadline: Option<int>, e: Failure) {
    (deadline.Some? && e.at < deadline.value) || !Enough(rule, |Group(failures, e)|)
  }

  /** What the replay does with one failure: nothing before the deadline or below the threshold;
      otherwise an alarm if none is within ten minutes, and a deadline ten minutes after the latest. */
  lemma OneFailureExactly(failures: set<Failure>, rule: Rule, scan: Scan, e: Failure)
    ensures var next := ScanOne(failures, rule, scan, e);
            && (Skipped(failures, rule, scan.nextEligibleAt, e) ==> next == scan)
            && (!Skipped(failures, rule, scan.nextEligibleAt, e) ==>
                  && next.alarms == scan.alarms + (if exists a :: Within(scan.alarms, e, a) then {} else {e})
                  && next.nextEligibleAt.Some?
                  && (exists a :: Within(next.alarms, e, a) && next.nextEligibleAt.value == a.at + 600_000)
                  && forall a | Within(next.alarms, e, a) :: a.at + 600_000 <= next.nextEligibleAt.value)
  {
    assert Group(failures, e) == WindowOf(failures, e);
    forall a: Failure ensures Within(scan.alarms, e, a) <==> a in scan.alarms && Near(a, e) {
    }
    var next := ScanOne(failures, rule, scan, e);
    if !Skipped(failures, rule, scan.nextEligibleAt, e) && LatestNear(scan.alarms, e).None? {
      assert Within(next.alarms, e, e);
    }
  }

  /** Retention deletes the failures and alarms it names that are before the cutoff, and no more. */
  lemma DeletionIsExact(s: Store, cutoff: int, doomed: set<Failure>)
    ensures var t := PruneRows(s, cutoff, doomed);
            && t == s.(failures := t.failures, alarms := t.alarms)
            && (forall f :: f in t.failures <==> f in s.failures && (f.at >= cutoff || f !in doomed))
            && (forall a :: a in t.alarms <==> a in s.alarms && (a.at >= cutoff || a !in doomed))
  {
  }

  /** It deletes the state exactly when that is finished and idle since before the cutoff. */
  lemma StateDeletionIsExact(s: Store, cutoff: int)
    requires s.row.Some?
    ensures var t := PruneState(s, cutoff);
            && (t.row.None? <==> s.row.value.lastActiveAt < cutoff && s.row.value.done >= s.row.value.queued)
            && t == s.(row := t.row) && (t.row.Some? ==> t.row == s.row)
  {
  }

  /** A run takes its steps one after the other, each as above. */
  lemma RunsGoOn(rule: Rule, steps: seq<Step>, e: Failure, cutoff: int, doomed: set<Failure>, gaps: seq<Gap>)
    ensures Run(rule, []) == Store(rule, {}, {}, None)
    ensures Run(rule, steps + [RecordStep(e)]) == Record(Run(rule, steps), e)
    ensures Run(rule, steps + [WorkStep]) == Work(Run(rule, steps))
    ensures Run(rule, steps + [WorkAmidStep(gaps)]) == WorkAmid(Run(rule, steps), gaps)
    ensures Run(rule, steps + [PruneRowsStep(cutoff, doomed)]) == PruneRows(Run(rule, steps), cutoff, doomed)
    ensures Run(rule, steps + [PruneStateStep(cutoff)]) == PruneState(Run(rule, steps), cutoff)
  {
    assert forall step :: (steps + [step])[..|steps|] == steps;
  }
}
