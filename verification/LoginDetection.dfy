/** The detector of repeated login failures, for one detection key (rule, scope, subject).

    `recordSecurityEvent` adds a failure, raises the queued generation and, for a late
    arrival, rewinds the cursor; `processOne` replays at most twenty failures past the
    cursor, raises alarms and closes the generation.  Both lock the key's state row, so each is
    one step of the machine below.  Retention locks only the rows it deletes: its deletions are
    steps of their own and may also fall between any two queries of a batch. */
module LoginDetection {
  import opened Chronology

  const WINDOW_MS: int := 10 * 60_000
  const BATCH: nat := 20

  datatype Rule = Account | Ip

  /** A failure: a stamp with a real id.  The all-zero id of a rewound cursor is 0. */
  type Failure = f: Stamp | f.id >= 1 witness Stamp(0, 1)

  /** The row of `security_detection_states`. */
  datatype KeyState = KeyState(queued: nat, done: nat, cursor: Option<Stamp>,
                               nextEligibleAt: Option<int>, lastActiveAt: int)

  /** The key's failures, its alarms (each named by the failure it was raised on) and its
      state row. */
  datatype Store = Store(rule: Rule, failures: set<Failure>, alarms: set<Failure>, row: Option<KeyState>)

  function Threshold(rule: Rule): nat {
    if rule == Ip then 20 else 5
  }

  // ---------------------------------------------------------------- queries

  predicate InWindow(f: Stamp, e: Stamp) {
    e.at - WINDOW_MS < f.at < e.at || (f.at == e.at && f.id <= e.id)
  }

  function WindowOf(failures: set<Failure>, e: Stamp): set<Failure> {
    set f | f in failures && InWindow(f, e)
  }

  function WindowCount(failures: set<Failure>, e: Stamp): nat {
    |WindowOf(failures, e)|
  }

  /** The window that ends at `e` holds at least the threshold. */
  predicate Hot(failures: set<Failure>, rule: Rule, e: Stamp) {
    WindowCount(failures, e) >= Threshold(rule)
  }

  predicate Near(a: Stamp, e: Stamp) {
    e.at - WINDOW_MS < a.at < e.at + WINDOW_MS
  }

  predicate HasNear(alarms: set<Failure>, e: Stamp) {
    exists a :: a in alarms && Near(a, e)
  }

  /** The instant of the latest alarm within one window of `e`, on either side. */
  function LatestNear(alarms: set<Failure>, e: Stamp): (r: Option<int>)
    ensures r.None? <==> !HasNear(alarms, e)
    ensures r.Some? ==> exists a :: a in alarms && Near(a, e) && a.at == r.value
    ensures r.Some? ==> forall a | a in alarms && Near(a, e) :: a.at <= r.value
  {
    var near := set a | a in alarms && Near(a, e);
    if near == {} then
      assert forall a | a in alarms && Near(a, e) :: a in near;
      None
    else
      var last := Latest(near);
      assert forall a | a in alarms && Near(a, e) :: a in near && a.at <= last.at;
      Some(last.at)
  }

  predicate PastCursor(f: Stamp, cursor: Option<Stamp>) {
    cursor.None? || Before(cursor.value, f)
  }

  function Pending(failures: set<Failure>, cursor: Option<Stamp>): set<Failure> {
    set f | f in failures && PastCursor(f, cursor)
  }

  predicate Unfinished(s: Store) {
    s.row.Some? && s.row.value.done < s.row.value.queued
  }

  // ---------------------------------------------------------------- steps

  function Record(s: Store, e: Failure): Store {
    var row := match s.row
      case None => KeyState(1, 0, None, None, e.at)
      case Some(k) =>
        var k := k.(queued := k.queued + 1, lastActiveAt := e.at);
        if k.cursor.Some? && k.cursor.value.at >= e.at
        then k.(cursor := Some(Stamp(e.at - 1, 0)), nextEligibleAt := None)
        else k;
    s.(failures := s.failures + {e}, row := Some(row))
  }

  /** What the replay loop carries from one failure to the next. */
  datatype Scan = Scan(alarms: set<Failure>, nextEligibleAt: Option<int>)

  function ScanOne(failures: set<Failure>, rule: Rule, scan: Scan, e: Failure): Scan {
    if scan.nextEligibleAt.Some? && e.at < scan.nextEligibleAt.value then scan
    else if WindowCount(failures, e) < Threshold(rule) then scan
    else match LatestNear(scan.alarms, e)
      case Some(t) => scan.(nextEligibleAt := Some(t + WINDOW_MS))
      case None => Scan(scan.alarms + {e}, Some(e.at + WINDOW_MS))
  }

  function ScanAll(failures: set<Failure>, rule: Rule, scan: Scan, batch: seq<Failure>): Scan {
    if batch == [] then scan
    else
      var n := |batch| - 1;
      ScanOne(failures, rule, ScanAll(failures, rule, scan, batch[..n]), batch[n])
  }

  function Candidates(s: Store): (r: seq<Failure>)
    requires s.row.Some?
    ensures Ascending(r) && Elements(r) == Pending(s.failures, s.row.value.cursor)
    ensures |r| == |Pending(s.failures, s.row.value.cursor)|
  {
    var r := Sorted(Pending(s.failures, s.row.value.cursor));
    assert forall x | x in r :: x in Elements(r);
    r
  }

  function Batch(s: Store): seq<Failure>
    requires s.row.Some?
  {
    var c := Candidates(s);
    c[..if |c| > BATCH then BATCH else |c|]
  }

  function LastOr(batch: seq<Failure>, cursor: Option<Stamp>): Option<Stamp> {
    if batch == [] then cursor else Some(batch[|batch| - 1])
  }

  function Work(s: Store): Store {
    if !Unfinished(s) then s
    else
      var k := s.row.value;
      var batch := Batch(s);
      var scan := ScanAll(s.failures, s.rule, Scan(s.alarms, k.nextEligibleAt), batch);
      s.(alarms := scan.alarms,
         row := Some(k.(cursor := LastOr(batch, k.cursor),
                        nextEligibleAt := scan.nextEligibleAt,
                        done := if |Candidates(s)| > BATCH then k.done else k.queued)))
  }

  function Surviving(rows: set<Failure>, cutoff: int, doomed: set<Failure>): set<Failure> {
    set r | r in rows && !(r in doomed && r.at < cutoff)
  }

  /** One deletion statement of retention: some of the rows older than the cutoff. */
  function PruneRows(s: Store, cutoff: int, doomed: set<Failure>): Store {
    s.(failures := Surviving(s.failures, cutoff, doomed), alarms := Surviving(s.alarms, cutoff, doomed))
  }

  datatype Deletion = Deletion(cutoff: int, doomed: set<Failure>)

  function Delete(s: Store, d: Option<Deletion>): Store {
    match d
    case None => s
    case Some(d) => PruneRows(s, d.cutoff, d.doomed)
  }

  /** What retention deletes in the middle of a batch, around the two queries for one failure. */
  datatype Gap = Gap(beforeCount: Option<Deletion>, beforeNearby: Option<Deletion>)

  function GapAt(gaps: seq<Gap>, i: nat): Gap {
    if i < |gaps| then gaps[i] else Gap(None, None)
  }

  /** Where a batch stands between two of its failures. */
  datatype Replay = Replay(store: Store, nextEligibleAt: Option<int>)

  /** Each query sees the rows that are left when it runs. */
  function ReplayOne(r: Replay, gap: Gap, e: Failure): Replay {
    var counted := Delete(r.store, gap.beforeCount);
    var asked := Delete(counted, gap.beforeNearby);
    var scan := ScanOne(counted.failures, r.store.rule, Scan(asked.alarms, r.nextEligibleAt), e);
    Replay(asked.(alarms := scan.alarms), scan.nextEligibleAt)
  }

  function ReplayAll(r: Replay, gaps: seq<Gap>, batch: seq<Failure>): Replay {
    if batch == [] then r
    else
      var n := |batch| - 1;
      ReplayOne(ReplayAll(r, gaps, batch[..n]), GapAt(gaps, n), batch[n])
  }

  /** `Work` with deletions that commit while it runs. */
  function WorkAmid(s: Store, gaps: seq<Gap>): Store {
    if !Unfinished(s) then s
    else
      var k := s.row.value;
      var batch := Batch(s);
      var r := ReplayAll(Replay(s, k.nextEligibleAt), gaps, batch);
      r.store.(row := Some(k.(cursor := LastOr(batch, k.cursor),
                              nextEligibleAt := r.nextEligibleAt,
                              done := if |Candidates(s)| > BATCH then k.done else k.queued)))
  }

  /** Retention's last statement: a finished state that has been idle since the cutoff goes. */
  function PruneState(s: Store, cutoff: int): Store {
    if s.row.Some? && s.row.value.lastActiveAt < cutoff && s.row.value.done >= s.row.value.queued
    then s.(row := None)
    else s
  }

  datatype Step =
    | RecordStep(e: Failure)
    | WorkStep
    | WorkAmidStep(gaps: seq<Gap>)
    | PruneRowsStep(cutoff: int, doomed: set<Failure>)
    | PruneStateStep(cutoff: int)

  function Apply(s: Store, step: Step): Store {
    match step
    case RecordStep(e) => Record(s, e)
    case WorkStep => Work(s)
    case WorkAmidStep(gaps) => WorkAmid(s, gaps)
    case PruneRowsStep(cutoff, doomed) => PruneRows(s, cutoff, doomed)
    case PruneStateStep(cutoff) => PruneState(s, cutoff)
  }

  function Init(rule: Rule): Store {
    Store(rule, {}, {}, None)
  }

  function Run(rule: Rule, steps: seq<Step>): Store {
    if steps == [] then Init(rule) else Apply(Run(rule, steps[..|steps| - 1]), steps[|steps| - 1])
  }

  function Later(horizon: Option<int>, d: Option<Deletion>): Option<int> {
    if d.None? || (horizon.Some? && d.value.cutoff < horizon.value) then horizon else Some(d.value.cutoff)
  }

  /** The latest cutoff once the first `n` failures of a batch have been treated. */
  function LaterAmid(horizon: Option<int>, gaps: seq<Gap>, n: nat): Option<int> {
    if n == 0 then horizon
    else Later(Later(LaterAmid(horizon, gaps, n - 1), GapAt(gaps, n - 1).beforeCount), GapAt(gaps, n - 1).beforeNearby)
  }

  /** The latest cutoff of any row deletion in the run. */
  function Horizon(steps: seq<Step>): Option<int> {
    if steps == [] then None
    else
      var before := Horizon(steps[..|steps| - 1]);
      match steps[|steps| - 1]
      case PruneRowsStep(cutoff, doomed) => Later(before, Some(Deletion(cutoff, doomed)))
      case WorkAmidStep(gaps) => LaterAmid(before, gaps, BATCH)
      case _ => before
  }

  // ---------------------------------------------------------------- what the detector promises

  /** Retention has deleted nothing that the window ending at `t` could need. */
  predicate Kept(horizon: Option<int>, t: int) {
    horizon.None? || horizon.value + WINDOW_MS <= t
  }

  predicate Separated(alarms: set<Failure>) {
    forall a, b | a in alarms && b in alarms && a != b :: !Near(a, b)
  }

  predicate Justified(s: Store, alarms: set<Failure>, horizon: Option<int>) {
    forall a | a in alarms && Kept(horizon, a.at) :: a in s.failures && Hot(s.failures, s.rule, a)
  }

  predicate Covered(s: Store, alarms: set<Failure>, horizon: Option<int>, e: Stamp) {
    Kept(horizon, e.at) && Hot(s.failures, s.rule, e) ==> HasNear(alarms, e)
  }

  /** The alarms are a maximal separated set of hot failures. */
  predicate MaximalSeparated(s: Store, horizon: Option<int>) {
    && Separated(s.alarms)
    && Justified(s, s.alarms, horizon)
    && forall e | e in s.failures :: Covered(s, s.alarms, horizon, e)
  }

  // ---------------------------------------------------------------- the invariant

  predicate Seen(s: Store, e: Stamp) {
    s.row.None? || !PastCursor(e, s.row.value.cursor)
  }

  /** The cached deadline belongs to an alarm that is near everything from instant `t`
      up to the deadline, or to one that retention has deleted. */
  predicate CacheOk(scan: Scan, horizon: Option<int>, t: int) {
    scan.nextEligibleAt.Some? ==>
      var alarmAt := scan.nextEligibleAt.value - WINDOW_MS;
      && alarmAt - WINDOW_MS < t
      && ((exists a :: a in scan.alarms && a.at == alarmAt)
          || (horizon.Some? && alarmAt < horizon.value))
  }

  predicate RowOk(s: Store, horizon: Option<int>) {
    s.row.Some? ==>
      var k := s.row.value;
      && k.done <= k.queued
      && (k.done == k.queued ==> Pending(s.failures, k.cursor) == {})
      && match k.cursor
         case None => k.nextEligibleAt.None?
         case Some(c) => CacheOk(Scan(s.alarms, k.nextEligibleAt), horizon, c.at)
  }

  predicate Inv(s: Store, horizon: Option<int>) {
    && RowOk(s, horizon)
    && Separated(s.alarms)
    && Justified(s, s.alarms, horizon)
    && forall e | e in s.failures && Seen(s, e) :: Covered(s, s.alarms, horizon, e)
  }

  // ---------------------------------------------------------------- counting

  lemma {:induction false} SubsetSize<T>(a: set<T>, b: set<T>)
    requires a <= b
    ensures |a| <= |b|
  {
    assert b == a + (b - a);
  }

  lemma CountGrows(small: set<Failure>, large: set<Failure>, e: Stamp)
    requires small <= large
    ensures WindowCount(small, e) <= WindowCount(large, e)
  {
    SubsetSize(WindowOf(small, e), WindowOf(large, e));
  }

  /** Counts agree when the two logs agree inside the window. */
  lemma CountLocal(a: set<Failure>, b: set<Failure>, e: Stamp)
    requires forall f | f in a + b && InWindow(f, e) :: f in a && f in b
    ensures WindowCount(a, e) == WindowCount(b, e)
  {
    assert WindowOf(a, e) == WindowOf(b, e);
  }

  // ---------------------------------------------------------------- recording

  lemma RecordKeepsInv(s: Store, horizon: Option<int>, e: Failure)
    requires Inv(s, horizon)
    ensures Inv(Record(s, e), horizon)
  {
    var t := Record(s, e);
    assert e in Pending(t.failures, t.row.value.cursor);
    forall a | a in s.alarms && Kept(horizon, a.at) ensures Hot(t.failures, t.rule, a) {
      CountGrows(s.failures, t.failures, a);
    }
    forall f | f in t.failures && Seen(t, f) ensures Covered(t, t.alarms, horizon, f) {
      assert f in s.failures && Seen(s, f) && f.at < e.at;
      CountLocal(s.failures, t.failures, f);
      assert Covered(s, s.alarms, horizon, f);
    }
  }

  // ---------------------------------------------------------------- replaying

  predicate ScanInv(s: Store, horizon: Option<int>, scan: Scan, t: int) {
    && Separated(scan.alarms)
    && Justified(s, scan.alarms, horizon)
    && CacheOk(scan, horizon, t)
  }

  /** What is missing from the smaller log is older than the horizon. */
  predicate OnlyExpiredGone(large: set<Failure>, small: set<Failure>, horizon: Option<int>) {
    small <= large && forall f | f in large && f !in small :: horizon.Some? && f.at < horizon.value
  }

  /** One failure of a batch, counted in a log that may have lost expired rows since. */
  lemma ScanOneOk(s: Store, horizon: Option<int>, counted: set<Failure>, scan: Scan, t: int, e: Failure)
    requires ScanInv(s, horizon, scan, t) && OnlyExpiredGone(counted, s.failures, horizon)
    requires t <= e.at && (Kept(horizon, e.at) ==> e in s.failures)
    ensures var r := ScanOne(counted, s.rule, scan, e);
            ScanInv(s, horizon, r, e.at) && scan.alarms <= r.alarms && Covered(s, r.alarms, horizon, e)
  {
    if Kept(horizon, e.at) {
      CountLocal(counted, s.failures, e);
    }
    if scan.nextEligibleAt.Some? && e.at < scan.nextEligibleAt.value {
      if a :| a in scan.alarms && a.at == scan.nextEligibleAt.value - WINDOW_MS {
        assert Near(a, e);
      }
    } else if Hot(counted, s.rule, e) && HasNear(scan.alarms, e) {
      var at := LatestNear(scan.alarms, e).value;
      var a :| a in scan.alarms && Near(a, e) && a.at == at;
      assert a.at == at + WINDOW_MS - WINDOW_MS;
    } else if Hot(counted, s.rule, e) {
      var r := ScanOne(counted, s.rule, scan, e);
      assert e in r.alarms && Near(e, e);
      assert forall a | a in scan.alarms :: !Near(a, e) && !Near(e, a);
    }
  }

  lemma DeleteKeepsScan(s: Store, horizon: Option<int>, d: Option<Deletion>, next: Option<int>, t: int)
    requires ScanInv(s, horizon, Scan(s.alarms, next), t)
    ensures var u, h := Delete(s, d), Later(horizon, d);
            ScanInv(u, h, Scan(u.alarms, next), t) && OnlyExpiredGone(s.failures, u.failures, h)
  {
    var u, h := Delete(s, d), Later(horizon, d);
    forall a | a in u.alarms && Kept(h, a.at) ensures a in u.failures && Hot(u.failures, u.rule, a) {
      assert Kept(horizon, a.at);
      CountLocal(s.failures, u.failures, a);
    }
    if next.Some? {
      if a :| a in s.alarms && a.at == next.value - WINDOW_MS && a !in u.alarms {
        assert a.at < d.value.cutoff;
      }
    }
  }

  lemma DeleteKeepsCovered(s: Store, horizon: Option<int>, d: Option<Deletion>, e: Stamp)
    requires Covered(s, s.alarms, horizon, e)
    ensures Covered(Delete(s, d), Delete(s, d).alarms, Later(horizon, d), e)
  {
    var u, h := Delete(s, d), Later(horizon, d);
    if Kept(h, e.at) && Hot(u.failures, u.rule, e) {
      CountGrows(u.failures, s.failures, e);
      var a :| a in s.alarms && Near(a, e);
      assert a in u.alarms;
    }
  }

  predicate ReplayInv(r: Replay, horizon: Option<int>, t: int) {
    ScanInv(r.store, horizon, Scan(r.store.alarms, r.nextEligibleAt), t)
  }

  predicate CoveredIn(s: Store, horizon: Option<int>, e: Stamp) {
    Covered(s, s.alarms, horizon, e)
  }

  lemma CoveredByMore(s: Store, alarms: set<Failure>, horizon: Option<int>, e: Stamp)
    requires Covered(s, s.alarms, horizon, e) && s.alarms <= alarms
    ensures Covered(s, alarms, horizon, e)
  {
  }

  lemma ReplayOneOk(r: Replay, horizon: Option<int>, t: int, gap: Gap, e: Failure)
    requires ReplayInv(r, horizon, t) && t <= e.at && (Kept(horizon, e.at) ==> e in r.store.failures)
    ensures var u, h := ReplayOne(r, gap, e), Later(Later(horizon, gap.beforeCount), gap.beforeNearby);
            && ReplayInv(u, h, e.at) && OnlyExpiredGone(r.store.failures, u.store.failures, h)
            && CoveredIn(u.store, h, e)
            && forall f | CoveredIn(r.store, horizon, f) :: CoveredIn(u.store, h, f)
  {
    var mid := Later(horizon, gap.beforeCount);
    var h := Later(mid, gap.beforeNearby);
    var counted := Delete(r.store, gap.beforeCount);
    var asked := Delete(counted, gap.beforeNearby);
    DeleteKeepsScan(r.store, horizon, gap.beforeCount, r.nextEligibleAt, t);
    DeleteKeepsScan(counted, mid, gap.beforeNearby, r.nextEligibleAt, t);
    ScanOneOk(asked, h, counted.failures, Scan(asked.alarms, r.nextEligibleAt), t, e);
    var u := ReplayOne(r, gap, e);
    forall f | CoveredIn(r.store, horizon, f) ensures CoveredIn(u.store, h, f) {
      DeleteKeepsCovered(r.store, horizon, gap.beforeCount, f);
      DeleteKeepsCovered(counted, mid, gap.beforeNearby, f);
      CoveredByMore(asked, u.store.alarms, h, f);
    }
  }

  /** A whole batch, whatever retention deletes while it runs: alarms stay separated and justified,
      and every failure treated, in this batch or before, is covered above the horizon. */
  lemma {:induction false} ReplayAllOk(r: Replay, horizon: Option<int>, t: int, gaps: seq<Gap>, batch: seq<Failure>)
    requires ReplayInv(r, horizon, t) && Ascending(batch)
    requires forall e | e in batch :: e in r.store.failures && t <= e.at
    ensures var u, h := ReplayAll(r, gaps, batch), LaterAmid(horizon, gaps, |batch|);
            && ReplayInv(u, h, if batch == [] then t else batch[|batch| - 1].at)
            && OnlyExpiredGone(r.store.failures, u.store.failures, h)
            && (forall e | e in batch :: CoveredIn(u.store, h, e))
            && forall f | CoveredIn(r.store, horizon, f) :: CoveredIn(u.store, h, f)
  {
    if batch != [] {
      var n := |batch| - 1;
      var e := batch[n];
      ReplayAllOk(r, horizon, t, gaps, batch[..n]);
      var mid := ReplayAll(r, gaps, batch[..n]);
      assert n > 0 ==> Before(batch[n - 1], e);
      ReplayOneOk(mid, LaterAmid(horizon, gaps, n), if n == 0 then t else batch[n - 1].at, GapAt(gaps, n), e);
      assert forall f | f in batch :: f in batch[..n] || f == e;
    }
  }

  lemma {:induction false} ReplayKeepsRow(r: Replay, gaps: seq<Gap>, batch: seq<Failure>)
    ensures var u := ReplayAll(r, gaps, batch);
            u.store.row == r.store.row && u.store.rule == r.store.rule
  {
    if batch != [] {
      ReplayKeepsRow(r, gaps, batch[..|batch| - 1]);
    }
  }

  lemma {:induction false} ReplayWithoutDeletions(r: Replay, batch: seq<Failure>)
    ensures var u := ReplayAll(r, [], batch);
            && u.store == r.store.(alarms := u.store.alarms)
            && Scan(u.store.alarms, u.nextEligibleAt)
               == ScanAll(r.store.failures, r.store.rule, Scan(r.store.alarms, r.nextEligibleAt), batch)
  {
    if batch != [] {
      ReplayWithoutDeletions(r, batch[..|batch| - 1]);
    }
  }

  lemma WithoutDeletions(s: Store)
    ensures WorkAmid(s, []) == Work(s)
  {
    if Unfinished(s) {
      ReplayWithoutDeletions(Replay(s, s.row.value.nextEligibleAt), Batch(s));
    }
  }

  lemma CandidatesArePending(s: Store)
    requires s.row.Some?
    ensures forall e :: e in Candidates(s) <==> e in Pending(s.failures, s.row.value.cursor)
  {
    assert forall e :: e in Candidates(s) <==> e in Elements(Candidates(s));
  }

  function Rest(s: Store): seq<Failure>
    requires s.row.Some?
  {
    Candidates(s)[|Batch(s)|..]
  }

  /** After a batch, what lies past the new cursor is what the batch left over. */
  lemma PendingAfterBatch(s: Store, e: Failure)
    requires s.row.Some? && e in s.failures
    ensures var cursor := LastOr(Batch(s), s.row.value.cursor);
            && (PastCursor(e, cursor) <==> e in Rest(s))
            && (PastCursor(e, cursor) <==> !Seen(s, e) && e !in Batch(s))
  {
    var c, b := Candidates(s), Batch(s);
    CandidatesArePending(s);
    if b == [] {
      assert c == [];
    } else {
      CutAscending(c, |b|);
    }
  }

  lemma RestIsPending(s: Store)
    requires s.row.Some?
    ensures Sorted(Pending(s.failures, LastOr(Batch(s), s.row.value.cursor))) == Rest(s)
  {
    CandidatesArePending(s);
    forall e | e in s.failures {
      PendingAfterBatch(s, e);
    }
    assert Elements(Rest(s)) == Pending(s.failures, LastOr(Batch(s), s.row.value.cursor));
    SortedOfAscending(Rest(s));
  }

  /** A batch holds failures of the log, none of them before the cursor's instant. */
  lemma BatchInOrder(s: Store) returns (start: int)
    requires s.row.Some?
    ensures s.row.value.cursor.Some? ==> start == s.row.value.cursor.value.at
    ensures Ascending(Batch(s)) && forall e | e in Batch(s) :: e in s.failures && start <= e.at
  {
    var k, batch := s.row.value, Batch(s);
    start := if k.cursor.Some? then k.cursor.value.at else if batch == [] then 0 else batch[0].at;
    forall i | 0 <= i < |batch| ensures batch[i] in s.failures && start <= batch[i].at {
      assert batch[i] in Elements(Candidates(s));
      assert i > 0 ==> Before(batch[0], batch[i]);
    }
  }

  predicate NotBefore(horizon: Option<int>, later: Option<int>) {
    horizon.None? || (later.Some? && horizon.value <= later.value)
  }

  lemma {:induction false} LaterAmidNotBefore(horizon: Option<int>, gaps: seq<Gap>, m: nat, n: nat)
    requires m <= n
    ensures NotBefore(LaterAmid(horizon, gaps, m), LaterAmid(horizon, gaps, n))
  {
    if m < n {
      LaterAmidNotBefore(horizon, gaps, m, n - 1);
    }
  }

  lemma InvLater(s: Store, horizon: Option<int>, later: Option<int>)
    requires Inv(s, horizon) && NotBefore(horizon, later)
    ensures Inv(s, later)
  {
    forall e | e in s.failures && Seen(s, e) ensures Covered(s, s.alarms, later, e) {
      assert Covered(s, s.alarms, horizon, e);
    }
  }

  lemma WorkAmidInv(s: Store, horizon: Option<int>, gaps: seq<Gap>)
    requires Inv(s, horizon) && Unfinished(s)
    ensures Inv(WorkAmid(s, gaps), LaterAmid(horizon, gaps, |Batch(s)|))
  {
    var k, batch, t := s.row.value, Batch(s), WorkAmid(s, gaps);
    var r, h := Replay(s, k.nextEligibleAt), LaterAmid(horizon, gaps, |batch|);
    var start := BatchInOrder(s);
    assert ReplayInv(r, horizon, start);
    ReplayAllOk(r, horizon, start, gaps, batch);
    ReplayKeepsRow(r, gaps, batch);
    forall e | e in s.failures {
      PendingAfterBatch(s, e);
    }
    var u := ReplayAll(r, gaps, batch).store;
    assert Justified(t, t.alarms, h) && RowOk(t, h);
    forall e | e in t.failures && Seen(t, e) ensures Covered(t, t.alarms, h, e) {
      assert e in batch || CoveredIn(s, horizon, e);
      assert CoveredIn(u, h, e);
    }
  }

  /** A batch keeps the invariant above the horizon, whatever retention deletes while it runs. */
  lemma WorkAmidKeepsInv(s: Store, horizon: Option<int>, gaps: seq<Gap>)
    requires Inv(s, horizon)
    ensures Inv(WorkAmid(s, gaps), LaterAmid(horizon, gaps, BATCH))
  {
    if Unfinished(s) {
      WorkAmidInv(s, horizon, gaps);
      LaterAmidNotBefore(horizon, gaps, |Batch(s)|, BATCH);
      InvLater(WorkAmid(s, gaps), LaterAmid(horizon, gaps, |Batch(s)|), LaterAmid(horizon, gaps, BATCH));
    } else {
      LaterAmidNotBefore(horizon, gaps, 0, BATCH);
      InvLater(s, horizon, LaterAmid(horizon, gaps, BATCH));
    }
  }

  lemma {:induction false} NoGapsNoLater(horizon: Option<int>, n: nat)
    ensures LaterAmid(horizon, [], n) == horizon
  {
    if n > 0 {
      NoGapsNoLater(horizon, n - 1);
    }
  }

  lemma WorkKeepsInv(s: Store, horizon: Option<int>)
    requires Inv(s, horizon)
    ensures Inv(Work(s), horizon)
  {
    WithoutDeletions(s);
    NoGapsNoLater(horizon, BATCH);
    WorkAmidKeepsInv(s, horizon, []);
  }

  // ---------------------------------------------------------------- retention

  lemma PruneRowsKeepsInv(s: Store, horizon: Option<int>, cutoff: int, doomed: set<Failure>)
    requires Inv(s, horizon)
    ensures Inv(PruneRows(s, cutoff, doomed), Later(horizon, Some(Deletion(cutoff, doomed))))
  {
    var d := Some(Deletion(cutoff, doomed));
    var t, h := PruneRows(s, cutoff, doomed), Later(horizon, d);
    assert t == Delete(s, d);
    var next := if s.row.Some? then s.row.value.nextEligibleAt else None;
    var at := if s.row.Some? && s.row.value.cursor.Some? then s.row.value.cursor.value.at else 0;
    DeleteKeepsScan(s, horizon, d, next, at);
    forall e | e in t.failures && Seen(t, e) ensures Covered(t, t.alarms, h, e) {
      assert Covered(s, s.alarms, horizon, e);
      DeleteKeepsCovered(s, horizon, d, e);
    }
  }

  // ---------------------------------------------------------------- whole runs

  lemma {:induction false} RunKeepsInv(rule: Rule, steps: seq<Step>)
    ensures Inv(Run(rule, steps), Horizon(steps))
  {
    if steps != [] {
      var n := |steps| - 1;
      var s, h := Run(rule, steps[..n]), Horizon(steps[..n]);
      RunKeepsInv(rule, steps[..n]);
      match steps[n] {
        case RecordStep(e) => RecordKeepsInv(s, h, e);
        case WorkStep => WorkKeepsInv(s, h);
        case WorkAmidStep(gaps) => WorkAmidKeepsInv(s, h, gaps);
        case PruneRowsStep(cutoff, doomed) => PruneRowsKeepsInv(s, h, cutoff, doomed);
        case PruneStateStep(cutoff) =>
          if Apply(s, steps[n]) != s {
            forall e | e in s.failures ensures Covered(s, s.alarms, h, e) {
              assert e !in Pending(s.failures, s.row.value.cursor);
            }
          }
      }
    }
  }

  /** Whenever nothing is queued, the alarms are a maximal separated set of hot failures:
      in every interleaving of on-time and late records, worker batches and retention, the
      deletions in the middle of a batch included.
      Without retention (`Horizon(steps) == None`) there is no restriction on instants. */
  lemma QuiescentRunsAreMaximal(rule: Rule, steps: seq<Step>)
    requires !Unfinished(Run(rule, steps))
    ensures MaximalSeparated(Run(rule, steps), Horizon(steps))
  {
    RunKeepsInv(rule, steps);
    var s := Run(rule, steps);
    forall e | e in s.failures ensures Covered(s, s.alarms, Horizon(steps), e) {
      assert s.row.Some? ==> e !in Pending(s.failures, s.row.value.cursor);
    }
  }

  function Backlog(s: Store): nat {
    if s.row.None? then 0 else |Pending(s.failures, s.row.value.cursor)|
  }

  /** No wake-up is lost: failures past the cursor always have an open generation behind them. */
  lemma NoLostWakeUp(rule: Rule, steps: seq<Step>)
    ensures var s := Run(rule, steps);
            && (s.row.Some? ==> s.row.value.done <= s.row.value.queued)
            && (Backlog(s) > 0 ==> Unfinished(s))
  {
    RunKeepsInv(rule, steps);
  }

  // ---------------------------------------------------------------- draining

  /** Without writers every step of the worker on an open generation makes progress. */
  lemma WorkProgresses(s: Store)
    requires Unfinished(s)
    ensures Backlog(Work(s)) < Backlog(s) || (Backlog(Work(s)) == Backlog(s) && !Unfinished(Work(s)))
    ensures Backlog(Work(s)) == if Backlog(s) > BATCH then Backlog(s) - BATCH else 0
    ensures Unfinished(Work(s)) <==> Backlog(s) > BATCH
  {
    RestIsPending(s);
  }
}
