/** The limit of the cached deadline: a run in which retention deletes the alarm behind it, after
    which the worker stays silent where always asking would raise an alarm. */
module LoginDetectionDeadCache {
  import opened Chronology
  import opened LoginDetection
  import opened LoginDetectionRefinement

  lemma {:induction false} AlwaysAskCovers(failures: set<Failure>, rule: Rule, alarms: set<Failure>,
                                           batch: seq<Failure>, e: Failure)
    requires e in batch && Hot(failures, rule, e)
    ensures HasNear(AlwaysAsk(failures, rule, alarms, batch), e)
  {
    var n := |batch| - 1;
    if e in batch[..n] {
      AlwaysAskCovers(failures, rule, alarms, batch[..n], e);
      var a :| a in AlwaysAsk(failures, rule, alarms, batch[..n]) && Near(a, e);
      assert a in AlwaysAsk(failures, rule, alarms, batch);
    } else {
      assert e == batch[n] && Near(e, e);
    }
  }

  function FiveFailures(): set<Failure> {
    {Stamp(10, 1), Stamp(10, 2), Stamp(10, 3), Stamp(10, 4), Stamp(10, 5)}
  }

  /** Five new failures; the alarm raised at instant 4 is deleted but still cached. */
  function DeadCacheStore(): Store {
    Store(Account, FiveFailures(), {}, Some(KeyState(10, 5, Some(Stamp(4, 9)), Some(4 + WINDOW_MS), 10)))
  }

  lemma FiveFailuresPending()
    ensures Pending(FiveFailures(), Some(Stamp(4, 9))) == FiveFailures()
    ensures |FiveFailures()| == 5 && Hot(FiveFailures(), Account, Stamp(10, 5))
  {
    var failures := FiveFailures();
    assert |failures| == 5;
    assert WindowOf(failures, Stamp(10, 5)) == failures;
  }

  function OldOrder(): seq<Failure> {
    [Stamp(4, 5), Stamp(4, 6), Stamp(4, 7), Stamp(4, 8), Stamp(4, 9)]
  }

  function NewOrder(): seq<Failure> {
    [Stamp(10, 1), Stamp(10, 2), Stamp(10, 3), Stamp(10, 4), Stamp(10, 5)]
  }

  function OldFailures(): set<Failure> {
    {Stamp(4, 5), Stamp(4, 6), Stamp(4, 7), Stamp(4, 8), Stamp(4, 9)}
  }

  /** Five old failures, a batch that raises an alarm on the last, five new failures, and
      then, before the worker is back, a retention pass up to instant 5. */
  function DeadCacheSteps(): seq<Step> {
    RecordSteps(OldOrder()) + [WorkStep] + RecordSteps(NewOrder())
    + [PruneRowsStep(5, OldFailures())] + [PruneStateStep(5)]
  }

  lemma RunAppend(rule: Rule, steps: seq<Step>, step: Step)
    ensures Run(rule, steps + [step]) == Apply(Run(rule, steps), step)
  {
    assert (steps + [step])[..|steps|] == steps;
  }

  /** Records one after the other. */
  function RecordAll(s: Store, order: seq<Failure>): Store {
    if order == [] then s else Record(RecordAll(s, order[..|order| - 1]), order[|order| - 1])
  }

  function RecordSteps(order: seq<Failure>): seq<Step> {
    seq(|order|, i requires 0 <= i < |order| => RecordStep(order[i]))
  }

  lemma {:induction false} RunRecords(rule: Rule, before: seq<Step>, order: seq<Failure>)
    ensures Run(rule, before + RecordSteps(order)) == RecordAll(Run(rule, before), order)
  {
    if order == [] {
      assert before + RecordSteps(order) == before;
    } else {
      var n := |order| - 1;
      RunRecords(rule, before, order[..n]);
      RecordStepsAppend(before, order);
      RunAppend(rule, before + RecordSteps(order[..n]), RecordStep(order[n]));
    }
  }

  lemma RecordStepsAppend(before: seq<Step>, order: seq<Failure>)
    requires order != []
    ensures before + RecordSteps(order)
         == before + RecordSteps(order[..|order| - 1]) + [RecordStep(order[|order| - 1])]
  {
  }

  /** The store after `count` more records at one instant. */
  function OnTime(s: Store, added: set<Failure>, count: nat, at: int): Store
    requires s.row.Some?
  {
    s.(failures := s.failures + added,
       row := Some(s.row.value.(queued := s.row.value.queued + count, lastActiveAt := at)))
  }

  lemma OnTimeOne(s: Store, e: Failure)
    requires s.row.Some? && (s.row.value.cursor.Some? ==> s.row.value.cursor.value.at < e.at)
    ensures Record(s, e) == OnTime(s, {e}, 1, e.at)
  {
  }

  lemma OnTimeTwice(s: Store, a: set<Failure>, b: set<Failure>, m: nat, n: nat, at: int)
    requires s.row.Some?
    ensures OnTime(OnTime(s, a, m, at), b, n, at) == OnTime(s, a + b, m + n, at)
  {
    assert s.failures + a + b == s.failures + (a + b);
  }

  /** Records that are not late only add to the log and to the generation. */
  lemma {:induction false} OnTimeRecords(s: Store, order: seq<Failure>, at: int)
    requires s.row.Some? && (s.row.value.cursor.Some? ==> s.row.value.cursor.value.at < at)
    requires order != [] && forall e | e in order :: e.at == at
    ensures RecordAll(s, order) == OnTime(s, Logged(order), |order|, at)
  {
    var n := |order| - 1;
    assert order == order[..n] + [order[n]];
    assert Logged(order) == Logged(order[..n]) + {order[n]};
    if n > 0 {
      OnTimeRecords(s, order[..n], at);
      OnTimeOne(OnTime(s, Logged(order[..n]), n, at), order[n]);
      OnTimeTwice(s, Logged(order[..n]), {order[n]}, n, 1, at);
    } else {
      OnTimeOne(s, order[n]);
      assert Logged(order) == {order[n]};
    }
  }

  lemma OldRun()
    ensures Run(Account, RecordSteps(OldOrder()))
         == Store(Account, OldFailures(), {}, Some(KeyState(5, 0, None, None, 4)))
  {
    var order := OldOrder();
    var first, rest := Record(Init(Account), order[0]), order[1..];
    RunRecords(Account, [], [order[0]]);
    RunRecords(Account, RecordSteps([order[0]]), rest);
    assert [] + RecordSteps([order[0]]) == RecordSteps([order[0]]);
    assert RecordSteps([order[0]]) + RecordSteps(rest) == RecordSteps(order);
    assert RecordAll(Init(Account), [order[0]]) == first;
    OnTimeRecords(first, rest, 4);
    assert first.failures + Logged(rest) == OldFailures();
  }

  /** The first `n` of the five old failures, in order. */
  function OldPrefix(n: nat): seq<Failure> {
    seq(n, i requires 0 <= i < n => Stamp(4, 5 + i))
  }

  lemma FewBefore(e: Failure)
    requires e.at == 4 && e.id < 9
    ensures WindowCount(OldFailures(), e) <= 4
  {
    var four: set<Failure> := {Stamp(4, 5), Stamp(4, 6), Stamp(4, 7), Stamp(4, 8)};
    assert OldFailures() == four + {Stamp(4, 9)};
    SubsetSize(WindowOf(OldFailures(), e), four);
  }

  lemma {:induction false} QuietScan(n: nat)
    requires n <= 4
    ensures ScanAll(OldFailures(), Account, Scan({}, None), OldPrefix(n)) == Scan({}, None)
  {
    if n > 0 {
      QuietScan(n - 1);
      FewBefore(Stamp(4, 4 + n));
      assert OldPrefix(n)[..n - 1] == OldPrefix(n - 1);
    }
  }

  lemma FifthAlarms()
    ensures ScanOne(OldFailures(), Account, Scan({}, None), Stamp(4, 9)) == Scan({Stamp(4, 9)}, Some(4 + WINDOW_MS))
  {
    assert WindowOf(OldFailures(), Stamp(4, 9)) == OldFailures();
  }

  /** The batch over the five old failures raises one alarm, on the fifth. */
  lemma OldScan()
    ensures ScanAll(OldFailures(), Account, Scan({}, None), OldPrefix(5)) == Scan({Stamp(4, 9)}, Some(4 + WINDOW_MS))
  {
    QuietScan(4);
    FifthAlarms();
    assert OldPrefix(5)[..4] == OldPrefix(4);
  }

  lemma OldBatch(s: Store)
    requires s.failures == OldFailures() && s.row.Some? && s.row.value.cursor.None?
    ensures Candidates(s) == OldPrefix(5) && Batch(s) == OldPrefix(5)
  {
    var batch: seq<Failure> := [Stamp(4, 5), Stamp(4, 6), Stamp(4, 7), Stamp(4, 8), Stamp(4, 9)];
    assert batch == OldPrefix(5);
    assert Pending(s.failures, None) == Elements(batch);
    SortedOfAscending(batch);
  }

  /** A batch that treats all candidates. */
  lemma WorkOnAll(s: Store, k: KeyState, batch: seq<Failure>, scan: Scan)
    requires s.row == Some(k) && k.done < k.queued && batch != [] && |batch| <= BATCH
    requires Candidates(s) == batch && Batch(s) == batch
    requires ScanAll(s.failures, s.rule, Scan(s.alarms, k.nextEligibleAt), batch) == scan
    ensures Work(s)
         == s.(alarms := scan.alarms,
               row := Some(KeyState(k.queued, k.queued, Some(batch[|batch| - 1]), scan.nextEligibleAt,
                                    k.lastActiveAt)))
  {
  }

  lemma OldWork()
    ensures Work(Store(Account, OldFailures(), {}, Some(KeyState(5, 0, None, None, 4))))
         == Store(Account, OldFailures(), {Stamp(4, 9)},
                  Some(KeyState(5, 5, Some(Stamp(4, 9)), Some(4 + WINDOW_MS), 4)))
  {
    var k := KeyState(5, 0, None, None, 4);
    var s := Store(Account, OldFailures(), {}, Some(k));
    OldBatch(s);
    OldScan();
    WorkOnAll(s, k, OldPrefix(5), Scan({Stamp(4, 9)}, Some(4 + WINDOW_MS)));
  }

  function Alarmed(): Store {
    Store(Account, OldFailures(), {Stamp(4, 9)}, Some(KeyState(5, 5, Some(Stamp(4, 9)), Some(4 + WINDOW_MS), 4)))
  }

  lemma NewRecords()
    ensures RecordAll(Alarmed(), NewOrder())
         == Store(Account, OldFailures() + FiveFailures(), {Stamp(4, 9)},
                  Some(KeyState(10, 5, Some(Stamp(4, 9)), Some(4 + WINDOW_MS), 10)))
  {
    OnTimeRecords(Alarmed(), NewOrder(), 10);
    assert Logged(NewOrder()) == FiveFailures();
  }

  /** The store below is what that run leaves behind. */
  lemma DeadCacheIsReachable()
    ensures Run(Account, DeadCacheSteps()) == DeadCacheStore()
  {
    var first := RecordSteps(OldOrder());
    var recorded := first + [WorkStep] + RecordSteps(NewOrder());
    OldRun();
    OldWork();
    RunAppend(Account, first, WorkStep);
    RunRecords(Account, first + [WorkStep], NewOrder());
    NewRecords();
    RunRetention(recorded, PruneRowsStep(5, OldFailures()), PruneStateStep(5));
    RetentionPass(RecordAll(Alarmed(), NewOrder()));
  }

  lemma RunRetention(recorded: seq<Step>, rows: Step, state: Step)
    ensures Run(Account, recorded + [rows] + [state]) == Apply(Apply(Run(Account, recorded), rows), state)
  {
    RunAppend(Account, recorded, rows);
    RunAppend(Account, recorded + [rows], state);
  }

  lemma RetentionPass(s: Store)
    requires s == Store(Account, OldFailures() + FiveFailures(), {Stamp(4, 9)},
                        Some(KeyState(10, 5, Some(Stamp(4, 9)), Some(4 + WINDOW_MS), 10)))
    ensures Apply(Apply(s, PruneRowsStep(5, OldFailures())), PruneStateStep(5)) == DeadCacheStore()
  {
    OldRowsGo();
  }

  lemma OldRowsGo()
    ensures Surviving(OldFailures() + FiveFailures(), 5, OldFailures()) == FiveFailures()
    ensures Surviving({Stamp(4, 9)}, 5, OldFailures()) == {}
  {
  }

  lemma DeadCacheOutcome()
    ensures var s := DeadCacheStore();
            && Inv(s, Some(5)) && Unfinished(s) && !CacheLive(s)
            && Drain(s).alarms == {} && OnePass(s).alarms != {}
  {
    var s := DeadCacheStore();
    FiveFailuresPending();
    DeadCacheIsInvariant();
    assert Stamp(10, 5) in s.failures && PastCursor(Stamp(10, 5), s.row.value.cursor);
    DeadCacheDrain(s);
  }

  /** Once retention has deleted the alarm behind it, the cached deadline does change the
      outcome: after this run the worker raises no alarm where a pass that always asks raises
      one.  The failures lie within one window of the retention horizon, where the maximality
      theorem claims nothing. */
  lemma DeadCacheSilencesAnAlarm()
    ensures Unfinished(Run(Account, DeadCacheSteps()))
    ensures Drain(Run(Account, DeadCacheSteps())).alarms == {}
    ensures OnePass(Run(Account, DeadCacheSteps())).alarms != {}
  {
    DeadCacheIsReachable();
    DeadCacheOutcome();
  }

  lemma DeadCacheIsInvariant()
    ensures Inv(DeadCacheStore(), Some(5))
  {
    assert forall f | f in FiveFailures() :: !Kept(Some(5), f.at);
  }

  lemma DeadCacheDrain(s: Store)
    requires s.row.Some? && s.row.value.done < s.row.value.queued && s.alarms == {}
    requires s.row.value.nextEligibleAt.Some? && 0 < Backlog(s) <= BATCH
    requires exists e :: e in s.failures && PastCursor(e, s.row.value.cursor) && Hot(s.failures, s.rule, e)
    requires forall e | e in s.failures :: e.at < s.row.value.nextEligibleAt.value
    ensures Drain(s).alarms == {} && OnePass(s).alarms != {}
  {
    CandidatesArePending(s);
    var e :| e in s.failures && PastCursor(e, s.row.value.cursor) && Hot(s.failures, s.rule, e);
    assert e in Candidates(s);
    AlwaysAskCovers(s.failures, s.rule, {}, Candidates(s), e);
    WorkProgresses(s);
    forall f | f in Batch(s) ensures f in s.failures {
      assert f in Elements(Candidates(s));
    }
    CacheSkipsAll(s.failures, s.rule, Scan({}, s.row.value.nextEligibleAt), Batch(s));
  }
}
