/** The login limiter: one transaction reserves an attempt in every bucket or in none.  Times
    are the database's transaction times in milliseconds: a transaction takes its time when it
    begins and the locks only later, so from one attempt to the next times can go back. */
module LoginRateLimit {
  import opened Chronology

  datatype Bucket = Bucket(key: nat, limit: nat)

  datatype Counter = Counter(attempts: nat, expiresAt: int)

  type Counters = map<nat, Counter>

  // ---------------------------------------------------------------- one bucket

  /** The upsert: a fresh or expired window starts at one, a running one counts on below the
      limit, and otherwise no row is returned. */
  function Upsert(counters: Counters, bucket: Bucket, now: int, windowMs: nat): Option<Counters> {
    if bucket.key !in counters || counters[bucket.key].expiresAt <= now then
      Some(counters[bucket.key := Counter(1, now + windowMs)])
    else if counters[bucket.key].attempts < bucket.limit then
      Some(counters[bucket.key := Counter(counters[bucket.key].attempts + 1, counters[bucket.key].expiresAt)])
    else None
  }

  function UpsertAll(counters: Counters, buckets: seq<Bucket>, now: int, windowMs: nat): Option<Counters> {
    if buckets == [] then Some(counters)
    else
      var before := UpsertAll(counters, buckets[..|buckets| - 1], now, windowMs);
      if before.None? then None else Upsert(before.value, buckets[|buckets| - 1], now, windowMs)
  }

  // ---------------------------------------------------------------- lock order

  predicate ByKey(s: seq<Bucket>) {
    forall i, j | 0 <= i < j < |s| :: s[i].key <= s[j].key
  }

  lemma AppendByKey(s: seq<Bucket>, last: Bucket)
    requires ByKey(s) && forall b | b in multiset(s) :: b.key <= last.key
    ensures ByKey(s + [last])
  {
    assert forall i | 0 <= i < |s| :: s[i] in multiset(s);
  }

  function InsertByKey(s: seq<Bucket>, b: Bucket): (r: seq<Bucket>)
    requires ByKey(s)
    ensures ByKey(r) && multiset(r) == multiset(s) + multiset{b}
  {
    if s == [] then [b]
    else
      var last := s[|s| - 1];
      assert s == s[..|s| - 1] + [last];
      if last.key <= b.key then
        assert forall x | x in multiset(s) :: x.key <= b.key;
        AppendByKey(s, b);
        s + [b]
      else
        var rest := InsertByKey(s[..|s| - 1], b);
        assert forall x | x in multiset(s[..|s| - 1]) :: x.key <= last.key;
        AppendByKey(rest, last);
        rest + [last]
  }

  function SortByKey(s: seq<Bucket>): (r: seq<Bucket>)
    ensures ByKey(r) && multiset(r) == multiset(s)
  {
    if s == [] then []
    else
      assert s == s[..|s| - 1] + [s[|s| - 1]];
      InsertByKey(SortByKey(s[..|s| - 1]), s[|s| - 1])
  }

  // ---------------------------------------------------------------- one attempt

  /** All buckets or none: a refusal rolls the transaction back. */
  function Reserve(counters: Counters, buckets: seq<Bucket>, now: int, windowMs: nat): (Counters, bool) {
    match UpsertAll(counters, SortByKey(buckets), now, windowMs)
    case None => (counters, false)
    case Some(next) => (next, true)
  }

  class Limiter {
    var counters: Counters

    constructor ()
      ensures counters == map[]
    {
      counters := map[];
    }

    method ReserveLoginAttempt(buckets: seq<Bucket>, now: int, windowMs: nat) returns (allowed: bool)
      modifies this
      ensures (counters, allowed) == Reserve(old(counters), buckets, now, windowMs)
    {
      var sorted := SortByKey(buckets);
      var tx := counters;
      for i := 0 to |sorted|
        invariant counters == old(counters)
        invariant UpsertAll(counters, sorted[..i], now, windowMs) == Some(tx)
      {
        assert sorted[..i + 1][..i] == sorted[..i];
        var bucket := sorted[i];
        if bucket.key in tx && tx[bucket.key].expiresAt > now && tx[bucket.key].attempts >= bucket.limit {
          RefusalIsFinal(counters, sorted, i + 1, now, windowMs);
          return false;
        }
        if bucket.key !in tx || tx[bucket.key].expiresAt <= now {
          tx := tx[bucket.key := Counter(1, now + windowMs)];
        } else {
          tx := tx[bucket.key := Counter(tx[bucket.key].attempts + 1, tx[bucket.key].expiresAt)];
        }
      }
      assert sorted[..|sorted|] == sorted;
      counters := tx;
      return true;
    }
  }

  lemma {:induction false} RefusalIsFinal(counters: Counters, buckets: seq<Bucket>, i: nat, now: int, windowMs: nat)
    requires i <= |buckets| && UpsertAll(counters, buckets[..i], now, windowMs).None?
    ensures UpsertAll(counters, buckets, now, windowMs).None?
    decreases |buckets|
  {
    if i < |buckets| {
      assert buckets[..|buckets| - 1][..i] == buckets[..i];
      RefusalIsFinal(counters, buckets[..|buckets| - 1], i, now, windowMs);
    } else {
      assert buckets[..i] == buckets;
    }
  }

  // ---------------------------------------------------------------- all or none

  function CounterAt(counters: Counters, key: nat): Option<Counter> {
    if key in counters then Some(counters[key]) else None
  }

  /** A running window already holds the limit. */
  predicate Full(c: Option<Counter>, limit: nat, now: int) {
    c.Some? && c.value.expiresAt > now && c.value.attempts >= limit
  }

  /** The counter after one more attempt. */
  function Counted(c: Option<Counter>, now: int, windowMs: nat): Counter {
    if c.None? || c.value.expiresAt <= now then Counter(1, now + windowMs)
    else Counter(c.value.attempts + 1, c.value.expiresAt)
  }

  predicate DistinctKeys(buckets: seq<Bucket>) {
    forall i, j | 0 <= i < j < |buckets| :: buckets[i].key != buckets[j].key
  }

  predicate HasKey(buckets: seq<Bucket>, key: nat) {
    exists b | b in buckets :: b.key == key
  }

  predicate SomeFull(counters: Counters, buckets: seq<Bucket>, now: int) {
    exists b | b in buckets :: Full(CounterAt(counters, b.key), b.limit, now)
  }

  /** One attempt counted in every bucket of the request and in no other. */
  ghost predicate Advanced(before: Counters, next: Counters, buckets: seq<Bucket>, now: int, windowMs: nat) {
    forall key ::
      CounterAt(next, key)
      == (if HasKey(buckets, key) then Some(Counted(CounterAt(before, key), now, windowMs)) else CounterAt(before, key))
  }

  lemma {:induction false} UpsertAllIsExact(counters: Counters, buckets: seq<Bucket>, now: int, windowMs: nat)
    requires DistinctKeys(buckets)
    ensures var next := UpsertAll(counters, buckets, now, windowMs);
            && (next.None? <==> SomeFull(counters, buckets, now))
            && (next.Some? ==> Advanced(counters, next.value, buckets, now, windowMs))
  {
    if buckets != [] {
      var n := |buckets| - 1;
      var last := buckets[n];
      assert buckets == buckets[..n] + [last];
      UpsertAllIsExact(counters, buckets[..n], now, windowMs);
      assert !HasKey(buckets[..n], last.key);
      assert forall key :: HasKey(buckets, key) <==> HasKey(buckets[..n], key) || key == last.key;
    }
  }

  lemma SortKeepsMembers(buckets: seq<Bucket>)
    ensures forall b :: b in SortByKey(buckets) <==> b in buckets
    ensures DistinctKeys(buckets) ==> DistinctKeys(SortByKey(buckets))
  {
    var sorted := SortByKey(buckets);
    forall b ensures b in sorted <==> b in buckets {
      assert b in multiset(sorted) <==> b in multiset(buckets);
    }
    if DistinctKeys(buckets) {
      KeysOnce(buckets);
      OnceKeys(sorted);
    }
  }

  /** Distinct keys, as a property that does not depend on the order. */
  ghost predicate OneEach(m: multiset<Bucket>) {
    (forall b | b in m :: m[b] == 1) && forall a, b | a in m && b in m && a.key == b.key :: a == b
  }

  lemma {:induction false} KeysOnce(s: seq<Bucket>)
    requires DistinctKeys(s)
    ensures OneEach(multiset(s))
  {
    if s != [] {
      var n := |s| - 1;
      assert s == s[..n] + [s[n]];
      KeysOnce(s[..n]);
      assert s[n] !in multiset(s[..n]);
    }
  }

  lemma OneEachWithout(m: multiset<Bucket>, last: Bucket)
    requires OneEach(m + multiset{last})
    ensures OneEach(m) && forall b | b in m :: b.key != last.key
  {
    var all := m + multiset{last};
    assert last in all && all[last] == 1;
    forall b | b in m ensures m[b] == 1 && b.key != last.key {
      assert b in all && all[b] == 1;
    }
  }

  lemma {:induction false} OnceKeys(s: seq<Bucket>)
    requires OneEach(multiset(s))
    ensures DistinctKeys(s)
  {
    if s != [] {
      var n := |s| - 1;
      assert s == s[..n] + [s[n]];
      OneEachWithout(multiset(s[..n]), s[n]);
      OnceKeys(s[..n]);
      forall i | 0 <= i < n ensures s[i].key != s[n].key {
        assert s[i] == s[..n][i] && s[..n][i] in multiset(s[..n]);
      }
    }
  }

  /** An attempt is refused exactly when some bucket is full, and then changes nothing;
      otherwise it counts once in every bucket and in no other. */
  lemma AllOrNone(counters: Counters, buckets: seq<Bucket>, now: int, windowMs: nat)
    requires DistinctKeys(buckets)
    ensures var (next, allowed) := Reserve(counters, buckets, now, windowMs);
            && (allowed <==> !SomeFull(counters, buckets, now))
            && (!allowed ==> next == counters)
            && (allowed ==> Advanced(counters, next, buckets, now, windowMs))
  {
    SortKeepsMembers(buckets);
    var sorted := SortByKey(buckets);
    UpsertAllIsExact(counters, sorted, now, windowMs);
    assert SomeFull(counters, sorted, now) <==> SomeFull(counters, buckets, now);
    assert forall key :: HasKey(sorted, key) <==> HasKey(buckets, key);
  }

  // ---------------------------------------------------------------- runs

  datatype Attempt = Attempt(now: int, buckets: seq<Bucket>)

  function After(attempts: seq<Attempt>, windowMs: nat): Counters {
    if attempts == [] then map[]
    else
      var last := attempts[|attempts| - 1];
      Reserve(After(attempts[..|attempts| - 1], windowMs), last.buckets, last.now, windowMs).0
  }

  /** The times of the successful reservations of a bucket. */
  function Successes(attempts: seq<Attempt>, windowMs: nat, key: nat): seq<int> {
    if attempts == [] then []
    else
      var n := |attempts| - 1;
      var allowed := Reserve(After(attempts[..n], windowMs), attempts[n].buckets, attempts[n].now, windowMs).1;
      Extended(Successes(attempts[..n], windowMs, key), attempts[n], key, allowed)
  }

  /** Each key has one limit, and a request names a bucket once. */
  ghost predicate Respects(attempts: seq<Attempt>, limits: nat -> nat) {
    forall a | a in attempts :: DistinctKeys(a.buckets) && forall b | b in a.buckets :: b.limit == limits(b.key)
  }

  /** Times go back by at most `back`; by nothing when it is zero. */
  predicate GoesBackBy(attempts: seq<Attempt>, back: nat) {
    forall i, j | 0 <= i < j < |attempts| :: attempts[i].now - back <= attempts[j].now
  }

  predicate WithinLimits(counters: Counters, limits: nat -> nat) {
    forall key | key in counters :: counters[key].attempts <= limits(key)
  }

  lemma {:induction false} RunStaysWithin(attempts: seq<Attempt>, windowMs: nat, limits: nat -> nat)
    requires Respects(attempts, limits) && forall key :: limits(key) >= 1
    ensures WithinLimits(After(attempts, windowMs), limits)
  {
    if attempts != [] {
      var n := |attempts| - 1;
      var before, last := After(attempts[..n], windowMs), attempts[n];
      RunStaysWithin(attempts[..n], windowMs, limits);
      AllOrNone(before, last.buckets, last.now, windowMs);
      var next := After(attempts, windowMs);
      forall key | key in next ensures next[key].attempts <= limits(key) {
        assert CounterAt(next, key) == Some(next[key]);
        if next != before && HasKey(last.buckets, key) {
          var b :| b in last.buckets && b.key == key;
          assert last in attempts && !Full(CounterAt(before, b.key), b.limit, last.now);
        }
      }
    }
  }

  ghost predicate NeverAboveLimit(limits: nat -> nat) {
    forall attempts, windowMs | Respects(attempts, limits) :: WithinLimits(After(attempts, windowMs), limits)
  }

  /** No bucket ever counts above its limit, in every run, exactly when every limit is at
      least one: a limit of zero still lets the first attempt of a window through.  The login
      route passes the limits 5 and 20, so no bucket of the program ever counts above its own. */
  lemma CountsNeverExceedExactly(limits: nat -> nat)
    ensures NeverAboveLimit(limits) <==> forall key :: limits(key) >= 1
  {
    if forall key :: limits(key) >= 1 {
      forall attempts, windowMs | Respects(attempts, limits) ensures WithinLimits(After(attempts, windowMs), limits) {
        RunStaysWithin(attempts, windowMs, limits);
      }
    }
    forall key | limits(key) == 0 ensures !NeverAboveLimit(limits) {
      FirstAttemptPasses(key, limits(key));
      var attempts := [Attempt(0, [Bucket(key, limits(key))])];
      assert Respects(attempts, limits);
      var counters := After(attempts, 60_000);
      assert key in counters && counters[key].attempts == 1;
    }
  }

  lemma FirstAttemptPasses(key: nat, limit: nat)
    ensures CounterAt(After([Attempt(0, [Bucket(key, limit)])], 60_000), key) == Some(Counter(1, 60_000))
  {
    var attempts := [Attempt(0, [Bucket(key, limit)])];
    assert attempts[..0] == [];
    AllOrNone(map[], [Bucket(key, limit)], 0, 60_000);
    assert HasKey([Bucket(key, limit)], key) by {
      assert Bucket(key, limit) in [Bucket(key, limit)];
    }
  }

  // ---------------------------------------------------------------- twice the limit

  /** What the counter says about the successes: the last `attempts` of them are the current
      window, at most `limit` before those are the window before it, and everything earlier
      lies more than one window length before the current one. */
  ghost predicate Explains(c: Counter, times: seq<int>, limit: nat, windowMs: nat, q: int) {
    var start := |times| - c.attempts;
    && 1 <= c.attempts <= limit && 0 <= q <= start && start - q <= limit
    && times[start] == c.expiresAt - windowMs
    && (forall i | 0 <= i < start :: times[i] < times[start])
    && (forall i | 0 <= i < q :: times[i] + windowMs < times[start])
  }

  /** Of any two successes `2 * limit` apart in the list the later one is more than `length` later. */
  predicate Spread(times: seq<int>, limit: nat, length: int) {
    forall i, j | 0 <= i && i + 2 * limit <= j < |times| :: times[j] - times[i] > length
  }

  /** Counter and successes of a bucket in step, none of them past the end of the window. */
  ghost predicate Tracked(c: Option<Counter>, times: seq<int>, limit: nat, windowMs: nat, back: nat) {
    && Spread(times, limit, windowMs - back)
    && if c.None? then times == []
       else (forall i | 0 <= i < |times| :: times[i] < c.value.expiresAt)
            && exists q :: Explains(c.value, times, limit, windowMs, q)
  }

  /** The time is at most `back` before any of the list. */
  predicate BackBy(times: seq<int>, now: int, back: nat) {
    forall i | 0 <= i < |times| :: times[i] - back <= now
  }

  lemma OneMoreSuccess(c: Counter, times: seq<int>, limit: nat, windowMs: nat, back: nat, now: int)
    requires Tracked(Some(c), times, limit, windowMs, back) && limit >= 1 && windowMs >= 1
    requires BackBy(times, now, back) && !Full(Some(c), limit, now)
    ensures Tracked(Some(Counted(Some(c), now, windowMs)), times + [now], limit, windowMs, back)
  {
    var q :| Explains(c, times, limit, windowMs, q);
    var start, longer, next := |times| - c.attempts, times + [now], Counted(Some(c), now, windowMs);
    if c.expiresAt > now {
      assert Explains(next, longer, limit, windowMs, q);
    } else {
      assert times[start] + windowMs <= now;
      assert Explains(next, longer, limit, windowMs, start);
    }
    SpreadFurther(c, times, limit, windowMs, back, q, now);
  }

  lemma SpreadFurther(c: Counter, times: seq<int>, limit: nat, windowMs: nat, back: nat, q: int, now: int)
    requires Explains(c, times, limit, windowMs, q) && Spread(times, limit, windowMs - back) && limit >= 1
    requires BackBy(times, now, back) && !Full(Some(c), limit, now)
    ensures Spread(times + [now], limit, windowMs - back)
  {
    var start := |times| - c.attempts;
    forall i | 0 <= i && i + 2 * limit <= |times| ensures now - times[i] > windowMs - back {
      assert c.expiresAt > now ==> i < q;
      assert i < start && times[start] - back <= now;
    }
  }

  lemma FirstSuccess(limit: nat, windowMs: nat, back: nat, now: int)
    requires limit >= 1 && windowMs >= 1
    ensures Tracked(Some(Counted(None, now, windowMs)), [now], limit, windowMs, back)
  {
    assert Explains(Counter(1, now + windowMs), [now], limit, windowMs, 0);
  }

  lemma TrackedFurther(c: Option<Counter>, times: seq<int>, limit: nat, windowMs: nat, back: nat, now: int)
    requires Tracked(c, times, limit, windowMs, back) && limit >= 1 && windowMs >= 1
    requires BackBy(times, now, back) && !Full(c, limit, now)
    ensures Tracked(Some(Counted(c, now, windowMs)), times + [now], limit, windowMs, back)
  {
    if c.Some? {
      OneMoreSuccess(c.value, times, limit, windowMs, back, now);
    } else {
      FirstSuccess(limit, windowMs, back, now);
      assert times + [now] == [now];
    }
  }

  lemma CounterAfter(before: Counters, a: Attempt, windowMs: nat, key: nat, limit: nat)
    requires DistinctKeys(a.buckets) && (forall b | b in a.buckets && b.key == key :: b.limit == limit)
    ensures var (next, allowed) := Reserve(before, a.buckets, a.now, windowMs);
            if allowed && HasKey(a.buckets, key)
            then CounterAt(next, key) == Some(Counted(CounterAt(before, key), a.now, windowMs))
                 && !Full(CounterAt(before, key), limit, a.now)
            else CounterAt(next, key) == CounterAt(before, key)
  {
    AllOrNone(before, a.buckets, a.now, windowMs);
    if HasKey(a.buckets, key) && Reserve(before, a.buckets, a.now, windowMs).1 {
      var b :| b in a.buckets && b.key == key;
      assert !Full(CounterAt(before, b.key), b.limit, a.now);
    }
  }

  /** The successes after one more attempt. */
  function Extended(times: seq<int>, a: Attempt, key: nat, allowed: bool): seq<int> {
    times + if HasKey(a.buckets, key) && allowed then [a.now] else []
  }

  lemma TrackedAttempt(before: Counters, a: Attempt, windowMs: nat, back: nat, key: nat, limit: nat, times: seq<int>)
    requires DistinctKeys(a.buckets) && (forall b | b in a.buckets && b.key == key :: b.limit == limit)
    requires limit >= 1 && windowMs >= 1 && Tracked(CounterAt(before, key), times, limit, windowMs, back)
    requires BackBy(times, a.now, back)
    ensures var (next, allowed) := Reserve(before, a.buckets, a.now, windowMs);
            Tracked(CounterAt(next, key), Extended(times, a, key, allowed), limit, windowMs, back)
  {
    CounterAfter(before, a, windowMs, key, limit);
    if HasKey(a.buckets, key) && Reserve(before, a.buckets, a.now, windowMs).1 {
      TrackedFurther(CounterAt(before, key), times, limit, windowMs, back, a.now);
    } else {
      assert times + [] == times;
    }
  }

  lemma {:induction false} SuccessesAreAttempts(attempts: seq<Attempt>, windowMs: nat, key: nat)
    ensures forall x | x in Successes(attempts, windowMs, key) ::
              exists m :: 0 <= m < |attempts| && attempts[m].now == x
  {
    if attempts != [] {
      var n := |attempts| - 1;
      SuccessesAreAttempts(attempts[..n], windowMs, key);
      forall x | x in Successes(attempts, windowMs, key)
        ensures exists m :: 0 <= m < |attempts| && attempts[m].now == x
      {
        if x in Successes(attempts[..n], windowMs, key) {
          var m :| 0 <= m < n && attempts[..n][m].now == x;
          assert attempts[m].now == x;
        } else {
          assert attempts[n].now == x;
        }
      }
    }
  }

  lemma LastGoesBackBy(attempts: seq<Attempt>, windowMs: nat, back: nat, key: nat)
    requires attempts != [] && GoesBackBy(attempts, back)
    ensures BackBy(Successes(attempts[..|attempts| - 1], windowMs, key), attempts[|attempts| - 1].now, back)
  {
    var n := |attempts| - 1;
    var times := Successes(attempts[..n], windowMs, key);
    SuccessesAreAttempts(attempts[..n], windowMs, key);
    forall i | 0 <= i < |times| ensures times[i] - back <= attempts[n].now {
      assert times[i] in times;
      var m :| 0 <= m < n && attempts[..n][m].now == times[i];
      assert attempts[m].now - back <= attempts[n].now;
    }
  }

  lemma {:induction false} SuccessesAreTracked(attempts: seq<Attempt>, windowMs: nat, limits: nat -> nat, back: nat,
                                               key: nat)
    requires Respects(attempts, limits) && GoesBackBy(attempts, back) && limits(key) >= 1 && windowMs >= 1
    ensures Tracked(CounterAt(After(attempts, windowMs), key), Successes(attempts, windowMs, key), limits(key),
                    windowMs, back)
  {
    if attempts != [] {
      var n := |attempts| - 1;
      var before, last := After(attempts[..n], windowMs), attempts[n];
      assert last in attempts;
      SuccessesAreTracked(attempts[..n], windowMs, limits, back, key);
      LastGoesBackBy(attempts, windowMs, back, key);
      TrackedAttempt(before, last, windowMs, back, key, limits(key), Successes(attempts[..n], windowMs, key));
    }
  }

  /** The successes of an interval, both ends included. */
  function CountIn(times: seq<int>, from: int, to: int): nat {
    if times == [] then 0
    else CountIn(times[..|times| - 1], from, to) + if from <= times[|times| - 1] <= to then 1 else 0
  }

  /** In a spread-out list the counted successes fit into `2 * limit` places. */
  lemma {:induction false} CountIsBounded(times: seq<int>, from: int, to: int, limit: nat, length: int)
    requires Spread(times, limit, length) && to - from <= length && limit >= 1
    ensures CountIn(times, from, to) <= 2 * limit
  {
    if times != [] {
      var n := |times| - 1;
      if from <= times[n] <= to {
        // Everything `2 * limit` or more places earlier lies before the interval.
        var cut := if |times| <= 2 * limit then 0 else |times| - 2 * limit;
        forall i | 0 <= i < cut ensures times[i] < from {
          assert times[n] - times[i] > length;
        }
        CountFromCut(times, from, to, cut);
      } else {
        CountIsBounded(times[..n], from, to, limit, length);
      }
    }
  }

  lemma {:induction false} CountFromCut(times: seq<int>, from: int, to: int, cut: nat)
    requires cut <= |times| && forall i | 0 <= i < cut :: times[i] < from
    ensures CountIn(times, from, to) <= |times| - cut
  {
    if |times| > cut {
      CountFromCut(times[..|times| - 1], from, to, cut);
    } else if times != [] {
      CountFromCut(times[..|times| - 1], from, to, cut - 1);
    }
  }

  lemma TrackedCounts(c: Option<Counter>, times: seq<int>, limit: nat, windowMs: nat, back: nat, from: int, length: int)
    requires Tracked(c, times, limit, windowMs, back) && limit >= 1 && length <= windowMs - back
    ensures CountIn(times, from, from + length) <= 2 * limit
  {
    CountIsBounded(times, from, from + length, limit, windowMs - back);
  }

  /** If times go back by at most `back`, an interval that much shorter than a window, both ends
      included, holds at most twice the limit of successful reservations of a bucket. */
  lemma AtMostTwiceTheLimit(attempts: seq<Attempt>, windowMs: nat, limits: nat -> nat, back: nat, key: nat, from: int,
                            length: int)
    requires Respects(attempts, limits) && GoesBackBy(attempts, back) && limits(key) >= 1 && windowMs >= 1
    requires length <= windowMs - back
    ensures CountIn(Successes(attempts, windowMs, key), from, from + length) <= 2 * limits(key)
  {
    SuccessesAreTracked(attempts, windowMs, limits, back, key);
    TrackedCounts(CounterAt(After(attempts, windowMs), key), Successes(attempts, windowMs, key), limits(key), windowMs,
                  back, from, length);
  }

  // ---------------------------------------------------------------- no longer interval

  /** What a run has left in bucket 0. */
  datatype Track = Track(counter: Option<Counter>, times: seq<int>)

  type Runs = seq<Attempt> -> Track

  function RunsOf(windowMs: nat): Runs {
    attempts => Track(CounterAt(After(attempts, windowMs), 0), Successes(attempts, windowMs, 0))
  }

  /** Attempts on bucket 0 at one instant. */
  function Same(now: int, count: nat, limit: nat): seq<Attempt> {
    seq(count, _ => Attempt(now, [Bucket(0, limit)]))
  }

  function Times(now: int, count: nat): seq<int> {
    seq(count, _ => now)
  }

  /** One more attempt counts, unless the bucket is full. */
  ghost predicate CountsOne(runs: Runs, windowMs: nat, limit: nat, attempts: seq<Attempt>, now: int) {
    var before := runs(attempts);
    !Full(before.counter, limit, now) ==>
      runs(attempts + Same(now, 1, limit)) == Track(Some(Counted(before.counter, now, windowMs)), before.times + [now])
  }

  ghost predicate Counts(runs: Runs, windowMs: nat, limit: nat) {
    forall attempts, now :: CountsOne(runs, windowMs, limit, attempts, now)
  }

  lemma RunsCountOne(windowMs: nat, limit: nat, attempts: seq<Attempt>, now: int)
    ensures CountsOne(RunsOf(windowMs), windowMs, limit, attempts, now)
  {
    var before, a := After(attempts, windowMs), Attempt(now, [Bucket(0, limit)]);
    assert Same(now, 1, limit) == [a];
    assert (attempts + [a])[..|attempts|] == attempts;
    assert a.buckets[0] in a.buckets;
    assert HasKey(a.buckets, 0);
    CounterAfter(before, a, windowMs, 0, limit);
    AllOrNone(before, a.buckets, now, windowMs);
  }

  lemma RunsCount(windowMs: nat, limit: nat)
    ensures Counts(RunsOf(windowMs), windowMs, limit)
  {
    forall attempts, now ensures CountsOne(RunsOf(windowMs), windowMs, limit, attempts, now) {
      RunsCountOne(windowMs, limit, attempts, now);
    }
  }

  /** Attempts of a running window that stay within the limit. */
  lemma {:induction false} SameAttempts(runs: Runs, windowMs: nat, limit: nat, attempts: seq<Attempt>, c: Counter,
                                        times: seq<int>, now: int, count: nat)
    requires Counts(runs, windowMs, limit) && runs(attempts) == Track(Some(c), times)
    requires now < c.expiresAt && c.attempts + count <= limit
    ensures runs(attempts + Same(now, count, limit))
         == Track(Some(Counter(c.attempts + count, c.expiresAt)), times + Times(now, count))
  {
    if count == 0 {
      assert attempts + Same(now, 0, limit) == attempts && times + Times(now, 0) == times;
    } else {
      var before := attempts + Same(now, count - 1, limit);
      SameAttempts(runs, windowMs, limit, attempts, c, times, now, count - 1);
      assert CountsOne(runs, windowMs, limit, before, now);
      assert before + Same(now, 1, limit) == attempts + Same(now, count, limit);
      assert times + Times(now, count - 1) + [now] == times + Times(now, count);
    }
  }

  /** A first attempt and more of the same window; the window before has run out. */
  lemma NewWindow(runs: Runs, windowMs: nat, limit: nat, attempts: seq<Attempt>, first: int, now: int, count: nat)
    requires Counts(runs, windowMs, limit) && count < limit && now < first + windowMs
    requires runs(attempts).counter.None? || runs(attempts).counter.value.expiresAt <= first
    ensures runs(attempts + Same(first, 1, limit) + Same(now, count, limit))
         == Track(Some(Counter(1 + count, first + windowMs)), runs(attempts).times + [first] + Times(now, count))
  {
    assert CountsOne(runs, windowMs, limit, attempts, first);
    SameAttempts(runs, windowMs, limit, attempts + Same(first, 1, limit), Counter(1, first + windowMs),
                 runs(attempts).times + [first], now, count);
  }

  /** Three windows in a row: one that fills up at its end, one that fills up at its start, and
      one in which the times go back. */
  function Crowd(windowMs: nat, limit: nat, back: nat): seq<Attempt>
    requires limit >= 1
  {
    [] + Same(0, 1, limit) + Same(windowMs - 1, limit - 1, limit)
    + Same(windowMs, 1, limit) + Same(windowMs, limit - 1, limit)
    + Same(2 * windowMs, 1, limit) + Same(2 * windowMs - back, limit - 1, limit)
  }

  function CrowdTimes(windowMs: nat, limit: nat, back: nat): seq<int>
    requires limit >= 1
  {
    [] + [0] + Times(windowMs - 1, limit - 1) + [windowMs] + Times(windowMs, limit - 1)
    + [2 * windowMs] + Times(2 * windowMs - back, limit - 1)
  }

  lemma CrowdSucceeds(runs: Runs, windowMs: nat, limit: nat, back: nat)
    requires Counts(runs, windowMs, limit) && runs([]) == Track(None, []) && limit >= 1 && windowMs >= 1
    ensures runs(Crowd(windowMs, limit, back)).times == CrowdTimes(windowMs, limit, back)
  {
    var n := limit - 1;
    var first := [] + Same(0, 1, limit) + Same(windowMs - 1, n, limit);
    var second := first + Same(windowMs, 1, limit) + Same(windowMs, n, limit);
    NewWindow(runs, windowMs, limit, [], 0, windowMs - 1, n);
    NewWindow(runs, windowMs, limit, first, windowMs, windowMs, n);
    NewWindow(runs, windowMs, limit, second, 2 * windowMs, 2 * windowMs - back, n);
  }

  lemma CrowdGoesBackBy(windowMs: nat, limit: nat, back: nat)
    requires 1 <= limit && 1 <= windowMs && back <= windowMs
    ensures GoesBackBy(Crowd(windowMs, limit, back), back) && Respects(Crowd(windowMs, limit, back), _ => limit)
  {
  }

  lemma {:induction false} CountConcat(a: seq<int>, b: seq<int>, from: int, to: int)
    ensures CountIn(a + b, from, to) == CountIn(a, from, to) + CountIn(b, from, to)
  {
    if b == [] {
      assert a + b == a;
    } else {
      assert (a + b)[..|a + b| - 1] == a + b[..|b| - 1];
      CountConcat(a, b[..|b| - 1], from, to);
    }
  }

  lemma {:induction false} CountTimes(now: int, count: nat, from: int, to: int)
    ensures CountIn(Times(now, count), from, to) == if from <= now <= to then count else 0
  {
    if count > 0 {
      CountTimes(now, count - 1, from, to);
      assert Times(now, count)[..count - 1] == Times(now, count - 1);
    }
  }

  /** Nearly the whole of three windows lies between the end of the first and the last times. */
  lemma CrowdCount(windowMs: nat, limit: nat, back: nat, to: int)
    requires 1 <= limit && 1 <= windowMs && back <= windowMs && to >= 2 * windowMs - back
    ensures CountIn(CrowdTimes(windowMs, limit, back), windowMs - 1, to) >= 3 * limit - 2
  {
    var n, from, last := limit - 1, windowMs - 1, 2 * windowMs - back;
    var a := [] + [0];
    var b := a + Times(windowMs - 1, n);
    var c := b + [windowMs];
    var d := c + Times(windowMs, n);
    var e := d + [2 * windowMs];
    CountConcat(a, Times(windowMs - 1, n), from, to);
    CountConcat(b, [windowMs], from, to);
    CountConcat(c, Times(windowMs, n), from, to);
    CountConcat(d, [2 * windowMs], from, to);
    CountConcat(e, Times(last, n), from, to);
    CountTimes(windowMs - 1, n, from, to);
    CountTimes(windowMs, n, from, to);
    CountTimes(last, n, from, to);
    assert Times(windowMs, 1) == [windowMs];
    CountTimes(windowMs, 1, from, to);
  }

  /** In every run whose times go back by at most `back`, every interval of this length holds
      at most twice the limit. */
  ghost predicate TwiceAtMost(windowMs: nat, limit: nat, back: nat, length: int) {
    forall attempts, from | Respects(attempts, _ => limit) && GoesBackBy(attempts, back) ::
      WithinTwice(attempts, windowMs, limit, from, length)
  }

  predicate WithinTwice(attempts: seq<Attempt>, windowMs: nat, limit: nat, from: int, length: int) {
    CountIn(Successes(attempts, windowMs, 0), from, from + length) <= 2 * limit
  }

  lemma RunsHaveTimes(attempts: seq<Attempt>, windowMs: nat, times: seq<int>)
    requires RunsOf(windowMs)(attempts).times == times
    ensures Successes(attempts, windowMs, 0) == times
  {
  }

  lemma CrowdRun(windowMs: nat, limit: nat, back: nat) returns (attempts: seq<Attempt>)
    requires limit >= 1 && windowMs >= 1
    ensures attempts == Crowd(windowMs, limit, back)
    ensures Successes(attempts, windowMs, 0) == CrowdTimes(windowMs, limit, back)
  {
    var runs := RunsOf(windowMs);
    attempts := Crowd(windowMs, limit, back);
    RunsCount(windowMs, limit);
    assert runs([]) == Track(None, []);
    CrowdSucceeds(runs, windowMs, limit, back);
    RunsHaveTimes(attempts, windowMs, CrowdTimes(windowMs, limit, back));
  }

  /** With a longer interval the three windows are too many: times 0, 59999, 60000, 120000 and
      119999 are such a run for a window of a minute and times that go back by one. */
  lemma CrowdExceeds(windowMs: nat, limit: nat, back: nat, length: int) returns (attempts: seq<Attempt>)
    requires limit >= 3 && 1 <= windowMs && back <= windowMs && length > windowMs - back
    ensures attempts == Crowd(windowMs, limit, back)
    ensures !WithinTwice(attempts, windowMs, limit, windowMs - 1, length)
  {
    attempts := CrowdRun(windowMs, limit, back);
    CrowdCount(windowMs, limit, back, windowMs - 1 + length);
  }

  /** For a limit of three or more, as both limits of the login route are: whatever the times do
      within `back`, intervals of a length hold at most twice the limit exactly when the length
      is at most a window less `back`. */
  lemma TwiceTheLimitExactly(windowMs: nat, limit: nat, back: nat, length: int)
    requires limit >= 3 && 1 <= windowMs && back <= windowMs
    ensures TwiceAtMost(windowMs, limit, back, length) <==> length <= windowMs - back
  {
    if length <= windowMs - back {
      forall attempts, from | Respects(attempts, _ => limit) && GoesBackBy(attempts, back)
        ensures WithinTwice(attempts, windowMs, limit, from, length)
      {
        AtMostTwiceTheLimit(attempts, windowMs, _ => limit, back, 0, from, length);
      }
    } else {
      CrowdGoesBackBy(windowMs, limit, back);
      var attempts := CrowdExceeds(windowMs, limit, back, length);
    }
  }
}
