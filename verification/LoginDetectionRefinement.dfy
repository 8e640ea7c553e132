/** Two independent readings of the detector: when the cached deadline and the batch limit change
    nothing, exactly, and in-order failures give the greedy selection of alarms. */
module LoginDetectionRefinement {
  import opened Chronology
  import opened LoginDetection

  // ---------------------------------------------------------------- one unbounded pass

  function AskOne(failures: set<Failure>, rule: Rule, alarms: set<Failure>, e: Failure): set<Failure> {
    if Hot(failures, rule, e) && !HasNear(alarms, e) then alarms + {e} else alarms
  }

  /** The replay with no cached deadline: every hot failure asks for a nearby alarm. */
  function AlwaysAsk(failures: set<Failure>, rule: Rule, alarms: set<Failure>, batch: seq<Failure>): set<Failure> {
    if batch == [] then alarms
    else
      var n := |batch| - 1;
      AskOne(failures, rule, AlwaysAsk(failures, rule, alarms, batch[..n]), batch[n])
  }

  /** One pass over everything past the cursor, closing the generation. */
  function OnePass(s: Store): Store
    requires s.row.Some?
  {
    var k, all := s.row.value, Candidates(s);
    s.(alarms := AlwaysAsk(s.failures, s.rule, s.alarms, all),
       row := Some(k.(cursor := LastOr(all, k.cursor), done := k.queued)))
  }

  /** The worker run until the generation is closed. */
  function Drain(s: Store): Store
    decreases Backlog(s), if Unfinished(s) then 1 else 0
  {
    if !Unfinished(s) then s
    else
      WorkProgresses(s);
      Drain(Work(s))
  }

  /** The store without its cached deadline. */
  function Forget(s: Store): Store {
    match s.row
    case None => s
    case Some(k) => s.(row := Some(k.(nextEligibleAt := None)))
  }

  /** The alarm behind the cached deadline is still there. */
  predicate CacheLive(s: Store) {
    s.row.Some? && s.row.value.nextEligibleAt.Some? ==>
      && s.row.value.cursor.Some?
      && CacheOk(Scan(s.alarms, s.row.value.nextEligibleAt), None, s.row.value.cursor.value.at)
  }

  lemma {:induction false} ScanIsAlwaysAsk(failures: set<Failure>, rule: Rule, scan: Scan, t: int, batch: seq<Failure>)
    requires CacheOk(scan, None, t) && Ascending(batch) && forall e | e in batch :: t <= e.at
    ensures var r := ScanAll(failures, rule, scan, batch);
            && r.alarms == AlwaysAsk(failures, rule, scan.alarms, batch)
            && CacheOk(r, None, if batch == [] then t else batch[|batch| - 1].at)
  {
    if batch != [] {
      var n := |batch| - 1;
      var e := batch[n];
      ScanIsAlwaysAsk(failures, rule, scan, t, batch[..n]);
      var mid := ScanAll(failures, rule, scan, batch[..n]);
      var last := if n == 0 then t else batch[n - 1].at;
      assert n > 0 ==> Before(batch[n - 1], e);
      if mid.nextEligibleAt.Some? && e.at < mid.nextEligibleAt.value {
        var a :| a in mid.alarms && a.at == mid.nextEligibleAt.value - WINDOW_MS;
        assert Near(a, e);
      } else if Hot(failures, rule, e) && HasNear(mid.alarms, e) {
        var a :| a in mid.alarms && Near(a, e) && a.at == LatestNear(mid.alarms, e).value;
        assert a.at == LatestNear(mid.alarms, e).value + WINDOW_MS - WINDOW_MS;
      } else if Hot(failures, rule, e) {
        assert e in ScanOne(failures, rule, mid, e).alarms;
      }
    }
  }

  lemma {:induction false} AlwaysAskInParts(failures: set<Failure>, rule: Rule, alarms: set<Failure>,
                                            a: seq<Failure>, b: seq<Failure>)
    ensures AlwaysAsk(failures, rule, alarms, a + b)
         == AlwaysAsk(failures, rule, AlwaysAsk(failures, rule, alarms, a), b)
  {
    if b == [] {
      assert a + b == a;
    } else {
      var n := |b| - 1;
      AlwaysAskInParts(failures, rule, alarms, a, b[..n]);
      assert (a + b)[..|a + b| - 1] == a + b[..n];
    }
  }

  lemma WorkIsAlwaysAsk(s: Store)
    requires Unfinished(s) && CacheLive(s)
    ensures CacheLive(Work(s))
    ensures Work(s).alarms == AlwaysAsk(s.failures, s.rule, s.alarms, Batch(s))
  {
    var start := BatchInOrder(s);
    ScanIsAlwaysAsk(s.failures, s.rule, Scan(s.alarms, s.row.value.nextEligibleAt), start, Batch(s));
  }

  // ---------------------------------------------------------------- without the batch limit

  lemma {:induction false} ScanInParts(failures: set<Failure>, rule: Rule, scan: Scan, a: seq<Failure>, b: seq<Failure>)
    ensures ScanAll(failures, rule, scan, a + b) == ScanAll(failures, rule, ScanAll(failures, rule, scan, a), b)
  {
    if b == [] {
      assert a + b == a;
    } else {
      var n := |b| - 1;
      ScanInParts(failures, rule, scan, a, b[..n]);
      assert (a + b)[..|a + b| - 1] == a + b[..n];
    }
  }

  lemma ScanInTwoParts(failures: set<Failure>, rule: Rule, scan: Scan, cursor: Option<Stamp>, all: seq<Failure>, m: nat)
    requires m <= |all|
    ensures ScanAll(failures, rule, scan, all)
         == ScanAll(failures, rule, ScanAll(failures, rule, scan, all[..m]), all[m..])
    ensures LastOr(all, cursor) == LastOr(all[m..], LastOr(all[..m], cursor))
  {
    assert all == all[..m] + all[m..];
    ScanInParts(failures, rule, scan, all[..m], all[m..]);
  }

  /** One pass over everything past the cursor, with the cached deadline as it stands. */
  function CachedPass(s: Store): Store
    requires s.row.Some?
  {
    var k, all := s.row.value, Candidates(s);
    var scan := ScanAll(s.failures, s.rule, Scan(s.alarms, k.nextEligibleAt), all);
    s.(alarms := scan.alarms,
       row := Some(k.(cursor := LastOr(all, k.cursor), nextEligibleAt := scan.nextEligibleAt, done := k.queued)))
  }

  lemma CachedPassAfterWork(s: Store)
    requires Unfinished(s)
    ensures CachedPass(Work(s)) == CachedPass(s)
  {
    RestIsPending(s);
    ScanInTwoParts(s.failures, s.rule, Scan(s.alarms, s.row.value.nextEligibleAt), s.row.value.cursor,
                   Candidates(s), |Batch(s)|);
  }

  lemma FinishedIsCachedPass(t: Store)
    requires t.row.Some? && t.row.value.done == t.row.value.queued && Backlog(t) == 0
    ensures CachedPass(t) == t
  {
  }

  /** The batch limit never matters: running batches to the end is one pass with the same
      cache, whatever the cache holds. */
  lemma {:induction false} DrainIsCachedPass(s: Store)
    requires Unfinished(s)
    ensures Drain(s) == CachedPass(s)
    decreases Backlog(s)
  {
    WorkProgresses(s);
    CachedPassAfterWork(s);
    if Unfinished(Work(s)) {
      DrainIsCachedPass(Work(s));
    } else {
      FinishedIsCachedPass(Work(s));
    }
  }

  // ---------------------------------------------------------------- without the cache

  /** Below the deadline everything is skipped. */
  lemma {:induction false} CacheSkipsAll(failures: set<Failure>, rule: Rule, scan: Scan, batch: seq<Failure>)
    requires scan.nextEligibleAt.Some? && forall e | e in batch :: e.at < scan.nextEligibleAt.value
    ensures ScanAll(failures, rule, scan, batch) == scan
  {
    if batch != [] {
      CacheSkipsAll(failures, rule, scan, batch[..|batch| - 1]);
    }
  }

  /** From the deadline on it has no effect. */
  lemma {:induction false} DeadlinePast(failures: set<Failure>, rule: Rule, alarms: set<Failure>, deadline: int,
                                        batch: seq<Failure>)
    requires forall e | e in batch :: deadline <= e.at
    ensures var with, without := ScanAll(failures, rule, Scan(alarms, Some(deadline)), batch),
                                 ScanAll(failures, rule, Scan(alarms, None), batch);
            && with.alarms == without.alarms
            && (with.nextEligibleAt == without.nextEligibleAt
                || (with.nextEligibleAt == Some(deadline) && without.nextEligibleAt.None?))
  {
    if batch != [] {
      var n := |batch| - 1;
      assert batch[n] in batch;
      DeadlinePast(failures, rule, alarms, deadline, batch[..n]);
    }
  }

  lemma NoDeadlineIsAlwaysAsk(failures: set<Failure>, rule: Rule, alarms: set<Failure>, batch: seq<Failure>)
    requires Ascending(batch)
    ensures ScanAll(failures, rule, Scan(alarms, None), batch).alarms == AlwaysAsk(failures, rule, alarms, batch)
  {
    var t := if batch == [] then 0 else batch[0].at;
    assert forall i | 0 < i < |batch| :: Before(batch[0], batch[i]);
    ScanIsAlwaysAsk(failures, rule, Scan(alarms, None), t, batch);
  }

  lemma {:induction false} AlwaysAskAdds(failures: set<Failure>, rule: Rule, alarms: set<Failure>, batch: seq<Failure>)
    ensures alarms <= AlwaysAsk(failures, rule, alarms, batch) <= alarms + Logged(batch)
  {
    if batch != [] {
      var n := |batch| - 1;
      assert batch == batch[..n] + [batch[n]];
      AlwaysAskAdds(failures, rule, alarms, batch[..n]);
    }
  }

  /** Every hot failure of the batch already has an alarm near it. */
  predicate AllNear(failures: set<Failure>, rule: Rule, alarms: set<Failure>, batch: seq<Failure>) {
    forall e | e in batch && Hot(failures, rule, e) :: HasNear(alarms, e)
  }

  lemma {:induction false} AddsNothing(failures: set<Failure>, rule: Rule, alarms: set<Failure>, batch: seq<Failure>)
    ensures AlwaysAsk(failures, rule, alarms, batch) == alarms <==> AllNear(failures, rule, alarms, batch)
  {
    if batch != [] {
      var n := |batch| - 1;
      var e, before := batch[n], AlwaysAsk(failures, rule, alarms, batch[..n]);
      assert batch == batch[..n] + [e];
      AddsNothing(failures, rule, alarms, batch[..n]);
      AlwaysAskAdds(failures, rule, alarms, batch[..n]);
      assert before <= AlwaysAsk(failures, rule, alarms, batch);
      assert Near(e, e);
      if before == alarms {
        assert AllNear(failures, rule, alarms, batch) <==> (Hot(failures, rule, e) ==> HasNear(alarms, e));
      }
    }
  }

  /** The failures below an instant come first in a batch. */
  lemma {:induction false} CutAt(batch: seq<Failure>, deadline: int) returns (m: nat)
    requires Ascending(batch)
    ensures m <= |batch| && (forall e | e in batch[..m] :: e.at < deadline)
    ensures forall e | e in batch[m..] :: deadline <= e.at
  {
    if batch == [] || batch[|batch| - 1].at < deadline {
      m := |batch|;
      assert forall i | 0 <= i < |batch| - 1 :: Before(batch[i], batch[|batch| - 1]);
    } else {
      var n := |batch| - 1;
      m := CutAt(batch[..n], deadline);
      assert batch[..n][..m] == batch[..m] && batch[m..] == batch[..n][m..] + [batch[n]];
    }
  }

  /** Scanning with a deadline agrees with always asking exactly when the failures below it
      need no alarm. */
  lemma DeadlineIsExact(failures: set<Failure>, rule: Rule, alarms: set<Failure>, deadline: int,
                        batch: seq<Failure>, m: nat)
    requires Ascending(batch) && m <= |batch|
    requires (forall e | e in batch[..m] :: e.at < deadline) && forall e | e in batch[m..] :: deadline <= e.at
    ensures ScanAll(failures, rule, Scan(alarms, Some(deadline)), batch).alarms
         == AlwaysAsk(failures, rule, alarms, batch)
       <==> AllNear(failures, rule, alarms, batch[..m])
  {
    var first, rest := batch[..m], batch[m..];
    var asked := AlwaysAsk(failures, rule, alarms, first);
    assert batch == first + rest;
    ScanInParts(failures, rule, Scan(alarms, Some(deadline)), first, rest);
    CacheSkipsAll(failures, rule, Scan(alarms, Some(deadline)), first);
    DeadlinePast(failures, rule, alarms, deadline, rest);
    NoDeadlineIsAlwaysAsk(failures, rule, alarms, rest);
    AlwaysAskInParts(failures, rule, alarms, first, rest);
    AddsNothing(failures, rule, alarms, first);
    SkippedStaysMissing(failures, rule, alarms, asked, deadline, first, rest);
  }

  /** An alarm that asking raises below the deadline is missing for good from the other scan. */
  lemma SkippedStaysMissing(failures: set<Failure>, rule: Rule, alarms: set<Failure>, asked: set<Failure>,
                            deadline: int, first: seq<Failure>, rest: seq<Failure>)
    requires asked == AlwaysAsk(failures, rule, alarms, first)
    requires (forall e | e in first :: e.at < deadline) && forall e | e in rest :: deadline <= e.at
    ensures AlwaysAsk(failures, rule, alarms, rest) == AlwaysAsk(failures, rule, asked, rest) <==> asked == alarms
  {
    AlwaysAskAdds(failures, rule, alarms, first);
    AlwaysAskAdds(failures, rule, alarms, rest);
    AlwaysAskAdds(failures, rule, asked, rest);
    if asked != alarms {
      var x :| x in asked && x !in alarms;
      assert x in first && x !in rest;
      assert x in AlwaysAsk(failures, rule, asked, rest) && x !in AlwaysAsk(failures, rule, alarms, rest);
    }
  }

  /** The cached deadline skips no failure that needs an alarm: every hot failure past the
      cursor and below the deadline has a stored alarm near it. */
  predicate SkipsNothing(s: Store) {
    s.row.Some? && s.row.value.nextEligibleAt.Some? ==>
      forall e | e in Pending(s.failures, s.row.value.cursor) ::
        e.at < s.row.value.nextEligibleAt.value && Hot(s.failures, s.rule, e) ==> HasNear(s.alarms, e)
  }

  /** For every store, whatever retention did to it: with no writer in between, running
      batches to the end gives the alarms and cursor of one unbounded pass that always asks,
      exactly when the cached deadline skips no failure that needs an alarm. */
  lemma DrainIsOnePassExactly(s: Store)
    requires Unfinished(s)
    ensures Forget(Drain(s)) == Forget(OnePass(s)) <==> SkipsNothing(s)
  {
    DrainIsCachedPass(s);
    var all := Candidates(s);
    CandidatesArePending(s);
    match s.row.value.nextEligibleAt
    case None => NoDeadlineIsAlwaysAsk(s.failures, s.rule, s.alarms, all);
    case Some(deadline) =>
      var m := CutAt(all, deadline);
      DeadlineIsExact(s.failures, s.rule, s.alarms, deadline, all, m);
      assert all == all[..m] + all[m..];
      forall e ensures e in all[..m] <==> e in Pending(s.failures, s.row.value.cursor) && e.at < deadline {
        assert e in all <==> e in Elements(all);
      }
  }

  /** A deadline whose alarm is still stored skips nothing. */
  lemma LiveCacheSkipsNothing(s: Store)
    requires CacheLive(s)
    ensures SkipsNothing(s)
  {
    if s.row.Some? && s.row.value.nextEligibleAt.Some? {
      var a :| a in s.alarms && a.at == s.row.value.nextEligibleAt.value - WINDOW_MS;
      forall e | e in Pending(s.failures, s.row.value.cursor) && e.at < s.row.value.nextEligibleAt.value
        ensures HasNear(s.alarms, e)
      {
        assert Near(a, e);
      }
    }
  }

  lemma DrainIsOnePass(s: Store)
    requires Unfinished(s) && CacheLive(s)
    ensures Forget(Drain(s)) == Forget(OnePass(s))
  {
    LiveCacheSkipsNothing(s);
    DrainIsOnePassExactly(s);
  }

  /** The failures the deadline can skip lie at least one window after everything retention
      has deleted. */
  predicate SkipsKept(s: Store, horizon: Option<int>) {
    s.row.Some? && s.row.value.nextEligibleAt.Some? ==>
      forall e | e in Pending(s.failures, s.row.value.cursor) ::
        e.at < s.row.value.nextEligibleAt.value && Hot(s.failures, s.rule, e) ==> Kept(horizon, e.at)
  }

  /** Over every run, late arrivals, rewinds and retention included: draining is one pass that
      always asks exactly when the deadline skips no failure that needs an alarm; and it never
      does skip one that lies a window or more after the retention horizon, so not at all in
      a run without retention. */
  lemma RunsDrainInOnePass(rule: Rule, steps: seq<Step>)
    requires Unfinished(Run(rule, steps))
    ensures var s := Run(rule, steps);
            && (Forget(Drain(s)) == Forget(OnePass(s)) <==> SkipsNothing(s))
            && (SkipsKept(s, Horizon(steps)) ==> SkipsNothing(s))
            && (Horizon(steps) == None ==> SkipsKept(s, Horizon(steps)))
  {
    var s := Run(rule, steps);
    DrainIsOnePassExactly(s);
    RunKeepsInv(rule, steps);
    if SkipsKept(s, Horizon(steps)) {
      KeptIsNotSkipped(s, Horizon(steps));
    }
  }

  lemma KeptIsNotSkipped(s: Store, horizon: Option<int>)
    requires Inv(s, horizon) && SkipsKept(s, horizon)
    ensures SkipsNothing(s)
  {
    if s.row.Some? && s.row.value.nextEligibleAt.Some? {
      var alarmAt := s.row.value.nextEligibleAt.value - WINDOW_MS;
      forall e | e in Pending(s.failures, s.row.value.cursor)
                 && e.at < s.row.value.nextEligibleAt.value && Hot(s.failures, s.rule, e)
        ensures HasNear(s.alarms, e)
      {
        assert Kept(horizon, e.at);
        var a :| a in s.alarms && a.at == alarmAt;
        assert Near(a, e);
      }
    }
  }

  // ---------------------------------------------------------------- the greedy selection

  function Logged(order: seq<Failure>): set<Failure> {
    set f | f in order
  }

  /** Scan the failures from the first to the last; raise an alarm on a failure whose window
      holds the threshold, unless the last alarm is less than one window ago. */
  function Greedy(rule: Rule, order: seq<Failure>): set<Failure> {
    if order == [] then {}
    else
      var n := |order| - 1;
      var chosen := Greedy(rule, order[..n]);
      if Hot(Logged(order), rule, order[n]) && forall a | a in chosen :: a.at + WINDOW_MS <= order[n].at
      then chosen + {order[n]}
      else chosen
  }

  predicate Increasing(order: seq<Failure>) {
    forall i, j | 0 <= i < j < |order| :: order[i].at < order[j].at
  }

  /** The failures a run records, in the order of recording. */
  function Recorded(steps: seq<Step>): seq<Failure> {
    if steps == [] then []
    else
      var before := Recorded(steps[..|steps| - 1]);
      match steps[|steps| - 1]
      case RecordStep(e) => before + [e]
      case _ => before
  }

  predicate RecordsAndWork(steps: seq<Step>) {
    forall step | step in steps :: step.RecordStep? || step.WorkStep?
  }

  lemma {:induction false} GreedyChooses(rule: Rule, order: seq<Failure>)
    ensures Greedy(rule, order) <= Logged(order)
  {
    if order != [] {
      GreedyChooses(rule, order[..|order| - 1]);
    }
  }

  lemma GreedySeesPrefix(rule: Rule, order: seq<Failure>, m: nat)
    requires Increasing(order) && m < |order|
    ensures Hot(Logged(order), rule, order[m]) <==> Hot(Logged(order[..m + 1]), rule, order[m])
  {
    var e, prefix := order[m], order[..m + 1];
    forall f: Failure | InWindow(f, e) ensures f in order <==> f in prefix {
      if f in order {
        var i :| 0 <= i < |order| && order[i] == f;
        assert i <= m;
        assert prefix[i] == f;
      }
    }
    CountLocal(Logged(order), Logged(prefix), e);
  }

  lemma GreedyAsks(rule: Rule, order: seq<Failure>, m: nat)
    requires Increasing(order) && m < |order|
    ensures var e, chosen := order[m], Greedy(rule, order[..m]);
            HasNear(chosen, e) <==> !forall a | a in chosen :: a.at + WINDOW_MS <= e.at
  {
    var e, chosen := order[m], Greedy(rule, order[..m]);
    GreedyChooses(rule, order[..m]);
    forall a | a in chosen ensures Near(a, e) <==> a.at + WINDOW_MS > e.at {
      assert a in Logged(order[..m]);
      var i :| 0 <= i < m && order[i] == a;
    }
  }

  lemma GreedyAsksOne(rule: Rule, order: seq<Failure>, m: nat)
    requires Increasing(order) && m < |order|
    ensures Greedy(rule, order[..m + 1]) == AskOne(Logged(order), rule, Greedy(rule, order[..m]), order[m])
  {
    GreedySeesPrefix(rule, order, m);
    GreedyAsks(rule, order, m);
    assert order[..m + 1][..m] == order[..m];
  }

  /** Continuing the greedy selection is asking for a nearby alarm at every further failure. */
  lemma {:induction false} GreedyIsAlwaysAsk(rule: Rule, order: seq<Failure>, first: seq<Failure>, batch: seq<Failure>)
    requires Increasing(order) && first + batch <= order
    ensures AlwaysAsk(Logged(order), rule, Greedy(rule, first), batch) == Greedy(rule, first + batch)
  {
    if batch == [] {
      assert first + batch == first;
    } else {
      var n, m := |batch| - 1, |first + batch| - 1;
      assert first + batch[..n] == order[..m];
      assert first + batch == order[..m + 1] && batch[n] == order[m];
      GreedyIsAlwaysAsk(rule, order, first, batch[..n]);
      GreedyAsksOne(rule, order, m);
    }
  }

  /** The store has treated the first `k` recorded failures, greedily. */
  predicate Treated(s: Store, order: seq<Failure>, k: nat) {
    && k <= |order|
    && s.failures == Logged(order)
    && s.alarms == Greedy(s.rule, order[..k])
    && CacheLive(s)
    && (s.row.None? ==> order == [])
    && (s.row.Some? ==> s.row.value.cursor == if k == 0 then None else Some(order[k - 1]))
  }

  lemma CandidatesInOrder(s: Store, order: seq<Failure>, k: nat)
    requires Increasing(order) && Treated(s, order, k) && s.row.Some?
    ensures Candidates(s) == order[k..]
  {
    CandidatesArePending(s);
    if k > 0 {
      CutAscending(order, k);
    }
    forall e ensures e in Candidates(s) <==> e in order[k..] {
    }
    AscendingUnique(Candidates(s), order[k..]);
  }

  lemma PrefixOfRest(order: seq<Failure>, k: nat, j: nat)
    requires k + j <= |order|
    ensures order[k..][..j] == order[k..k + j]
  {
  }

  lemma BatchInOrderOfRecording(s: Store, order: seq<Failure>, k: nat) returns (m: nat)
    requires Increasing(order) && Treated(s, order, k) && s.row.Some?
    ensures k <= m <= |order| && Batch(s) == order[k..m]
  {
    CandidatesInOrder(s, order, k);
    m := if |order| - k > BATCH then k + BATCH else |order|;
    PrefixOfRest(order, k, m - k);
  }

  lemma TreatedFurther(s: Store, t: Store, order: seq<Failure>, k: nat, m: nat)
    requires Increasing(order) && Treated(s, order, k) && k <= m <= |order|
    requires s.row.Some? && t.row.Some? && t.failures == s.failures && t.rule == s.rule && CacheLive(t)
    requires t.alarms == AlwaysAsk(s.failures, s.rule, s.alarms, order[k..m])
    requires t.row.value.cursor == LastOr(order[k..m], s.row.value.cursor)
    ensures Treated(t, order, m)
  {
    assert order[..k] + order[k..m] == order[..m];
    GreedyIsAlwaysAsk(s.rule, order, order[..k], order[k..m]);
    assert k < m ==> order[k..m][m - k - 1] == order[m - 1];
  }

  lemma WorkTreats(s: Store, order: seq<Failure>, k: nat) returns (m: nat)
    requires Increasing(order) && Treated(s, order, k)
    ensures Treated(Work(s), order, m)
  {
    m := k;
    if Unfinished(s) {
      m := BatchInOrderOfRecording(s, order, k);
      WorkIsAlwaysAsk(s);
      TreatedFurther(s, Work(s), order, k, m);
    }
  }

  /** An in-order failure never rewinds the cursor. */
  lemma RecordTreats(s: Store, order: seq<Failure>, k: nat, e: Failure)
    requires Increasing(order + [e]) && Treated(s, order, k)
    ensures Treated(Record(s, e), order + [e], k)
  {
    assert (order + [e])[..k] == order[..k];
    if k > 0 {
      assert (order + [e])[k - 1].at < (order + [e])[|order|].at;
    }
  }

  lemma StepTreats(s: Store, order: seq<Failure>, k: nat, step: Step) returns (m: nat)
    requires step.RecordStep? || step.WorkStep?
    requires Treated(s, order, k) && Increasing(if step.RecordStep? then order + [step.e] else order)
    ensures Treated(Apply(s, step), if step.RecordStep? then order + [step.e] else order, m)
    ensures Apply(s, step).rule == s.rule
  {
    if step.RecordStep? {
      m := k;
      RecordTreats(s, order, k, step.e);
    } else {
      m := WorkTreats(s, order, k);
    }
  }

  lemma {:induction false} RunTreats(rule: Rule, steps: seq<Step>) returns (k: nat)
    requires RecordsAndWork(steps) && Increasing(Recorded(steps))
    ensures Treated(Run(rule, steps), Recorded(steps), k)
    ensures Run(rule, steps).rule == rule
  {
    k := 0;
    if steps != [] {
      var before, step := steps[..|steps| - 1], steps[|steps| - 1];
      var order := Recorded(before);
      assert step in steps && forall other | other in before :: other in steps;
      assert order == Recorded(steps)[..|order|];
      k := RunTreats(rule, before);
      k := StepTreats(Run(rule, before), order, k, step);
    }
  }

  lemma AllTreatedIsGreedy(s: Store, order: seq<Failure>, k: nat)
    requires Increasing(order) && Treated(s, order, k) && Backlog(s) == 0
    ensures s.alarms == Greedy(s.rule, order)
  {
    if s.row.Some? {
      CandidatesInOrder(s, order, k);
      assert |order[k..]| == 0;
    }
    assert order[..k] == order;
  }

  /** When failures are recorded in strictly increasing time, the alarms at quiescence are
      the greedy selection, whatever the interleaving with the worker. */
  lemma InOrderRunsAreGreedy(rule: Rule, steps: seq<Step>)
    requires RecordsAndWork(steps) && Increasing(Recorded(steps)) && !Unfinished(Run(rule, steps))
    ensures Run(rule, steps).alarms == Greedy(rule, Recorded(steps))
  {
    var k := RunTreats(rule, steps);
    NoLostWakeUp(rule, steps);
    AllTreatedIsGreedy(Run(rule, steps), Recorded(steps), k);
  }
}
