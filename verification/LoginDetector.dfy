/** The detector as the repository runs it: in-place updates of the event log and of the key's
    state row.  A record and a batch are one row-locked transaction each; retention is a
    sequence of deletions. */
module LoginDetector {
  import opened Chronology
  import opened LoginDetection
  import opened LoginDetectionLaw

  lemma ScanPrefix(failures: set<Failure>, rule: Rule, scan: Scan, batch: seq<Failure>, i: nat)
    requires i < |batch|
    ensures ScanAll(failures, rule, scan, batch[..i + 1])
         == ScanOne(failures, rule, ScanAll(failures, rule, scan, batch[..i]), batch[i])
  {
    assert batch[..i + 1][..i] == batch[..i];
  }

  class Detector {
    const rule: Rule
    var failures: set<Failure>
    var alarms: set<Failure>
    var row: Option<KeyState>

    constructor (rule: Rule)
      ensures View() == Init(rule)
    {
      this.rule := rule;
      failures, alarms, row := {}, {}, None;
    }

    function View(): Store
      reads this
    {
      Store(rule, failures, alarms, row)
    }

    method RecordSecurityEvent(e: Failure)
      modifies this
      ensures View() == Record(old(View()), e)
    {
      failures := failures + {e};
      if row.None? {
        row := Some(KeyState(1, 0, None, None, e.at));
      } else {
        row := Some(row.value.(queued := row.value.queued + 1, lastActiveAt := e.at));
      }
      // A late arrival: replay from just before its instant, without the cached deadline.
      if row.value.cursor.Some? && row.value.cursor.value.at >= e.at {
        row := Some(row.value.(cursor := Some(Stamp(e.at - 1, 0)), nextEligibleAt := None));
      }
    }

    /** What the replay does with one failure, before anything is written. */
    method Judge(source: Failure, cached: Option<int>) returns (alarm: bool, next: Option<int>)
      ensures ScanOne(failures, rule, Scan(alarms, cached), source)
           == Scan(if alarm then alarms + {source} else alarms, next)
      ensures alarm <==> !Skipped(failures, rule, cached, source) && forall a :: !Within(alarms, source, a)
      ensures Skipped(failures, rule, cached, source) ==> next == cached
      ensures alarm ==> next == Some(source.at + 600_000)
      ensures !Skipped(failures, rule, cached, source) && !alarm ==>
                exists a :: Within(alarms, source, a) && next == Some(a.at + 600_000)
                            && forall b | Within(alarms, source, b) :: b.at <= a.at
    {
      OneFailureExactly(failures, rule, Scan(alarms, cached), source);
      if cached.Some? && source.at < cached.value {
        return false, cached;
      }
      var attemptCount := WindowCount(failures, source);
      if attemptCount < Threshold(rule) {
        return false, cached;
      }
      var previous := LatestNear(alarms, source);
      if previous.Some? {
        return false, Some(previous.value + WINDOW_MS);
      }
      return true, Some(source.at + WINDOW_MS);
    }

    /** The body of the replay loop. */
    method ReplayOne(source: Failure, cached: Option<int>) returns (next: Option<int>)
      modifies `alarms
      ensures Scan(alarms, next) == ScanOne(failures, rule, Scan(old(alarms), cached), source)
    {
      var alarm: bool;
      alarm, next := Judge(source, cached);
      if alarm {
        alarms := alarms + {source};
      }
    }

    /** The replay loop over one batch. */
    method Replay(batch: seq<Failure>, cached: Option<int>) returns (next: Option<int>)
      modifies `alarms
      ensures Scan(alarms, next) == ScanAll(failures, rule, Scan(old(alarms), cached), batch)
    {
      next := cached;
      for i := 0 to |batch|
        invariant Scan(alarms, next) == ScanAll(failures, rule, Scan(old(alarms), cached), batch[..i])
      {
        ScanPrefix(failures, rule, Scan(old(alarms), cached), batch, i);
        next := ReplayOne(batch[i], next);
      }
      assert batch[..|batch|] == batch;
    }

    method ProcessOne() returns (worked: bool)
      modifies this
      ensures worked == Unfinished(old(View()))
      ensures View() == Work(old(View()))
      ensures worked <==> old(row.Some? && row.value.done < row.value.queued)
      ensures worked ==>
                && row.Some? && row.value.queued == old(row.value.queued) && failures == old(failures)
                && old(alarms) <= alarms
                && |Waiting(View())| == (if old(|Waiting(View())|) > 20 then old(|Waiting(View())|) - 20 else 0)
                && row.value.done == if old(|Waiting(View())|) > 20 then old(row.value.done) else row.value.queued
    {
      if row.None? || row.value.done >= row.value.queued {
        return false;
      }
      var k := row.value;
      var candidates := Candidates(View());
      var fetched := if |candidates| > BATCH + 1 then candidates[..BATCH + 1] else candidates;
      var hasMore := |fetched| > BATCH;
      var batch := if hasMore then fetched[..BATCH] else fetched;
      assert batch == Batch(View());
      TwentyAtATime(View());
      var next := Replay(batch, k.nextEligibleAt);
      row := Some(k.(cursor := LastOr(batch, k.cursor), nextEligibleAt := next,
                     done := if hasMore then k.done else k.queued));
      return true;
    }

    /** One call of the queue: at most `maxStates` batches. */
    method ProcessQueue(maxStates: nat) returns (processed: nat)
      modifies this
      ensures processed <= maxStates && failures == old(failures)
      ensures processed < maxStates ==> !Unfinished(View())
      ensures Backlog(View()) == if old(Backlog(View())) > BATCH * processed
                                 then old(Backlog(View())) - BATCH * processed
                                 else if processed == 0 then old(Backlog(View())) else 0
      ensures forall horizon :: Inv(old(View()), horizon) ==> Inv(View(), horizon)
    {
      processed := 0;
      while processed < maxStates
        invariant processed <= maxStates && failures == old(failures)
        invariant Backlog(View()) == if old(Backlog(View())) > BATCH * processed
                                     then old(Backlog(View())) - BATCH * processed
                                     else if processed == 0 then old(Backlog(View())) else 0
        invariant forall horizon :: Inv(old(View()), horizon) ==> Inv(View(), horizon)
      {
        ghost var s := View();
        var worked := ProcessOne();
        if !worked {
          return;
        }
        WorkProgresses(s);
        forall horizon | Inv(s, horizon) {
          WorkKeepsInv(s, horizon);
        }
        processed := processed + 1;
      }
    }

    /** Retention: deletes expired rows batch by batch (`batches[i]` are the rows the i-th
        statement finds unlocked), then the state row if it is finished and idle. */
    method PruneExpired(cutoff: int, batchSize: nat, maxBatches: nat, batches: seq<set<Failure>>)
      returns (deleted: nat)
      requires 1 <= batchSize && maxBatches == |batches|
      modifies this
      ensures exists gone :: View() == PruneState(PruneRows(old(View()), cutoff, gone), cutoff)
      ensures deleted == |old(failures)| - |failures| + |old(alarms)| - |alarms|
    {
      deleted := 0;
      ghost var gone: set<Failure> := {};
      assert View() == PruneRows(View(), cutoff, {});
      for i := 0 to maxBatches
        invariant View() == PruneRows(old(View()), cutoff, gone)
        invariant deleted == |old(failures)| - |failures| + |old(alarms)| - |alarms|
      {
        var keptFailures := Surviving(failures, cutoff, batches[i]);
        var keptAlarms := Surviving(alarms, cutoff, batches[i]);
        SubsetSize(keptFailures, failures);
        SubsetSize(keptAlarms, alarms);
        var count := |failures| - |keptFailures| + |alarms| - |keptAlarms|;
        failures, alarms := keptFailures, keptAlarms;
        deleted := deleted + count;
        gone := gone + batches[i];
        if count < batchSize {
          break;
        }
      }
      assert View() == PruneRows(old(View()), cutoff, gone);
      if row.Some? && row.value.lastActiveAt < cutoff && row.value.done >= row.value.queued {
        row := None;
      }
      assert View() == PruneState(PruneRows(old(View()), cutoff, gone), cutoff);
    }
  }
}
