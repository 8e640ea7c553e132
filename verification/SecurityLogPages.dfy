/** Keyset paging over the security log: newest first, a cursor holds the last (or first) row
    seen and a direction.  `rows` stands for the rows a manager may see that match the filters. */
module SecurityLogPages {
  import opened Chronology

  datatype Cursor = Older(row: Stamp) | Newer(row: Stamp)

  datatype Page = Page(items: seq<Stamp>, next: Option<Cursor>, previous: Option<Cursor>,
                       hasNextPage: bool, hasPreviousPage: bool)

  function Reverse(s: seq<Stamp>): seq<Stamp> {
    seq(|s|, i requires 0 <= i < |s| => s[|s| - 1 - i])
  }

  function Take(s: seq<Stamp>, n: nat): seq<Stamp> {
    if |s| <= n then s else s[..n]
  }

  function Below(rows: set<Stamp>, c: Stamp): set<Stamp> {
    set x | x in rows && Before(x, c)
  }

  function Above(rows: set<Stamp>, c: Stamp): set<Stamp> {
    set x | x in rows && Before(c, x)
  }

  /** The query: condition and order follow the direction of the cursor. */
  function Query(rows: set<Stamp>, cursor: Option<Cursor>, take: nat): seq<Stamp> {
    match cursor
    case None => Take(Reverse(Sorted(rows)), take)
    case Some(Older(c)) => Take(Reverse(Sorted(Below(rows, c))), take)
    case Some(Newer(c)) => Take(Sorted(Above(rows, c)), take)
  }

  function FirstRow(page: seq<Stamp>): Option<Stamp> {
    if page == [] then None else Some(page[0])
  }

  function LastRow(page: seq<Stamp>): Option<Stamp> {
    if page == [] then None else Some(page[|page| - 1])
  }

  function OlderThan(row: Option<Stamp>): Option<Cursor> {
    if row.Some? then Some(Older(row.value)) else None
  }

  function NewerThan(row: Option<Stamp>): Option<Cursor> {
    if row.Some? then Some(Newer(row.value)) else None
  }

  predicate Backwards(cursor: Option<Cursor>) {
    cursor.Some? && cursor.value.Newer?
  }

  /** The page made of the rows found, one more than the limit when there is a further page. */
  function PageOf(found: seq<Stamp>, cursor: Option<Cursor>, limit: nat): Page {
    var hasOverflow := |found| > limit;
    var page := if Backwards(cursor) then Reverse(Take(found, limit)) else Take(found, limit);
    if Backwards(cursor) then
      Page(page, OlderThan(LastRow(page)), if hasOverflow then NewerThan(FirstRow(page)) else None, true, hasOverflow)
    else
      Page(page, if hasOverflow then OlderThan(LastRow(page)) else None,
           if cursor.Some? then NewerThan(FirstRow(page)) else None, hasOverflow, cursor.Some?)
  }

  function ListPage(rows: set<Stamp>, cursor: Option<Cursor>, limit: nat): Page {
    PageOf(Query(rows, cursor, limit + 1), cursor, limit)
  }

  method ListManagerSecurityLogs(rows: set<Stamp>, cursor: Option<Cursor>, limit: nat) returns (page: Page)
    ensures page == ListPage(rows, cursor, limit)
  {
    var isNewer := cursor.Some? && cursor.value.Newer?;
    var found := Query(rows, cursor, limit + 1);
    var hasOverflow := |found| > limit;
    var items := Take(found, limit);
    if isNewer {
      items := Reverse(items);
    }
    var next, previous := None, None;
    if isNewer || hasOverflow {
      next := OlderThan(LastRow(items));
    }
    if (isNewer && hasOverflow) || (!isNewer && cursor.Some?) {
      previous := NewerThan(FirstRow(items));
    }
    page := Page(items, next, previous, isNewer || hasOverflow, if isNewer then hasOverflow else cursor.Some?);
  }

  // ---------------------------------------------------------------- pages as windows

  /** Positions `lo` to `hi` of an ascending log, newest first. */
  function Down(s: seq<Stamp>, lo: nat, hi: nat): seq<Stamp>
    requires lo <= hi <= |s|
  {
    seq(hi - lo, k requires 0 <= k < hi - lo => s[hi - 1 - k])
  }

  /** The rows before a stamp are the first `i` of an ascending log. */
  predicate SplitBelow(s: seq<Stamp>, c: Stamp, i: nat) {
    i <= |s| && (forall k | 0 <= k < i :: Before(s[k], c)) && forall k | i <= k < |s| :: !Before(s[k], c)
  }

  /** The rows after a stamp are those from position `j` on. */
  predicate SplitAbove(s: seq<Stamp>, c: Stamp, j: nat) {
    j <= |s| && (forall k | 0 <= k < j :: !Before(c, s[k])) && forall k | j <= k < |s| :: Before(c, s[k])
  }

  lemma {:induction false} PrefixBefore(s: seq<Stamp>, c: Stamp) returns (i: nat)
    requires Ascending(s)
    ensures SplitBelow(s, c, i)
  {
    if s == [] || Before(s[|s| - 1], c) {
      i := |s|;
      assert forall k | 0 <= k < |s| - 1 :: Before(s[k], s[|s| - 1]);
    } else {
      i := PrefixBefore(s[..|s| - 1], c);
    }
  }

  lemma {:induction false} PrefixUpTo(s: seq<Stamp>, c: Stamp) returns (j: nat)
    requires Ascending(s)
    ensures SplitAbove(s, c, j)
  {
    if s == [] || !Before(c, s[|s| - 1]) {
      j := |s|;
      assert forall k | 0 <= k < |s| - 1 :: Before(s[k], s[|s| - 1]);
    } else {
      j := PrefixUpTo(s[..|s| - 1], c);
    }
  }

  lemma BelowIsPrefix(rows: set<Stamp>, c: Stamp)
    ensures var i := |Below(rows, c)|;
            SplitBelow(Sorted(rows), c, i) && Sorted(Below(rows, c)) == Sorted(rows)[..i]
  {
    var s := Sorted(rows);
    var i := PrefixBefore(s, c);
    forall x ensures x in Elements(s[..i]) <==> x in Below(rows, c) {
      assert x in rows <==> x in Elements(s);
      if x in Below(rows, c) {
        var k :| 0 <= k < |s| && s[k] == x;
      }
    }
    AscendingUnique(Sorted(Below(rows, c)), s[..i]);
  }

  lemma AboveIsSuffix(rows: set<Stamp>, c: Stamp)
    ensures var j: int := |Sorted(rows)| - |Above(rows, c)|;
            j >= 0 && SplitAbove(Sorted(rows), c, j) && Sorted(Above(rows, c)) == Sorted(rows)[j..]
  {
    var s := Sorted(rows);
    var j := PrefixUpTo(s, c);
    forall x ensures x in Elements(s[j..]) <==> x in Above(rows, c) {
      assert x in rows <==> x in Elements(s);
      if x in Above(rows, c) {
        var k :| 0 <= k < |s| && s[k] == x;
      }
    }
    AscendingUnique(Sorted(Above(rows, c)), s[j..]);
  }

  /** Where an older page (or the first) ends. */
  function Upper(rows: set<Stamp>, cursor: Option<Cursor>): nat
    requires !Backwards(cursor)
  {
    if cursor.None? then |rows| else |Below(rows, cursor.value.row)|
  }

  function FloorSub(a: nat, b: nat): nat { if a < b then 0 else a - b }

  function Smaller(a: nat, b: nat): nat { if a < b then a else b }

  /** The page of `limit` rows that ends before position `hi`. */
  function OlderWindow(s: seq<Stamp>, hi: nat, bounded: bool, limit: nat): Page
    requires limit > 0 && hi <= |s|
  {
    var lo := FloorSub(hi, limit);
    Page(Down(s, lo, hi), if lo > 0 then Some(Older(s[lo])) else None,
         if bounded && hi > 0 then Some(Newer(s[hi - 1])) else None, lo > 0, bounded)
  }

  /** The page of `limit` rows that starts at position `j`. */
  function NewerWindow(s: seq<Stamp>, j: nat, limit: nat): Page
    requires limit > 0 && j <= |s|
  {
    var hi := Smaller(j + limit, |s|);
    Page(Down(s, j, hi), if j < hi then Some(Older(s[j])) else None,
         if hi < |s| then Some(Newer(s[hi - 1])) else None, true, hi < |s|)
  }

  lemma TakeDown(s: seq<Stamp>, hi: nat, limit: nat)
    requires hi <= |s|
    ensures Take(Reverse(s[..hi]), limit) == Down(s, FloorSub(hi, limit), hi)
  {
    var lo := FloorSub(hi, limit);
    assert |Take(Reverse(s[..hi]), limit)| == hi - lo;
    forall k | 0 <= k < hi - lo ensures Take(Reverse(s[..hi]), limit)[k] == s[hi - 1 - k] {
      assert Reverse(s[..hi])[k] == s[..hi][hi - 1 - k];
    }
  }

  lemma TakeOfDown(s: seq<Stamp>, hi: nat, limit: nat)
    requires hi <= |s|
    ensures Take(Down(s, FloorSub(hi, limit + 1), hi), limit) == Down(s, FloorSub(hi, limit), hi)
  {
  }

  lemma OlderPageOf(s: seq<Stamp>, hi: nat, cursor: Option<Cursor>, limit: nat)
    requires limit > 0 && hi <= |s| && !Backwards(cursor)
    ensures PageOf(Down(s, FloorSub(hi, limit + 1), hi), cursor, limit) == OlderWindow(s, hi, cursor.Some?, limit)
  {
    TakeOfDown(s, hi, limit);
  }

  lemma QueryOlder(rows: set<Stamp>, cursor: Option<Cursor>, take: nat)
    requires !Backwards(cursor)
    ensures var s, hi := Sorted(rows), Upper(rows, cursor);
            hi <= |s| && Query(rows, cursor, take) == Down(s, FloorSub(hi, take), hi)
  {
    var s, hi := Sorted(rows), Upper(rows, cursor);
    if cursor.Some? {
      BelowIsPrefix(rows, cursor.value.row);
    }
    assert s[..|s|] == s;
    TakeDown(s, hi, take);
  }

  /** An older page is the window of `limit` rows below its upper end. */
  lemma OlderPage(rows: set<Stamp>, cursor: Option<Cursor>, limit: nat)
    requires limit > 0 && !Backwards(cursor)
    ensures Upper(rows, cursor) <= |Sorted(rows)|
    ensures ListPage(rows, cursor, limit) == OlderWindow(Sorted(rows), Upper(rows, cursor), cursor.Some?, limit)
  {
    QueryOlder(rows, cursor, limit + 1);
    OlderPageOf(Sorted(rows), Upper(rows, cursor), cursor, limit);
  }

  lemma TakeUp(s: seq<Stamp>, j: nat, limit: nat)
    requires j <= |s|
    ensures Reverse(Take(Take(s[j..], limit + 1), limit)) == Down(s, j, Smaller(j + limit, |s|))
    ensures |Take(s[j..], limit + 1)| > limit <==> j + limit < |s|
  {
    var up := Take(Take(s[j..], limit + 1), limit);
    assert |up| == Smaller(j + limit, |s|) - j;
    assert forall k | 0 <= k < |up| :: up[k] == s[j + k];
  }

  lemma NewerPageOf(s: seq<Stamp>, j: nat, c: Stamp, limit: nat)
    requires limit > 0 && j <= |s|
    ensures PageOf(Take(s[j..], limit + 1), Some(Newer(c)), limit) == NewerWindow(s, j, limit)
  {
    TakeUp(s, j, limit);
  }

  /** Where a newer page starts. */
  function Lower(rows: set<Stamp>, c: Stamp): (j: nat)
    ensures j <= |Sorted(rows)| && Sorted(Above(rows, c)) == Sorted(rows)[j..]
  {
    AboveIsSuffix(rows, c);
    |Sorted(rows)| - |Above(rows, c)|
  }

  /** A newer page is the window of `limit` rows above its lower end. */
  lemma NewerPage(rows: set<Stamp>, c: Stamp, limit: nat)
    requires limit > 0
    ensures ListPage(rows, Some(Newer(c)), limit) == NewerWindow(Sorted(rows), Lower(rows, c), limit)
  {
    NewerPageOf(Sorted(rows), Lower(rows, c), c, limit);
  }

  lemma SplitsAtRow(s: seq<Stamp>, k: nat, i: nat)
    requires Ascending(s) && k < |s|
    ensures SplitBelow(s, s[k], i) ==> i == k
    ensures SplitAbove(s, s[k], i) ==> i == k + 1
  {
    assert i < k ==> Before(s[i], s[k]);
    assert k + 1 < i <= |s| ==> Before(s[k], s[k + 1]);
  }

  lemma BelowAtRow(rows: set<Stamp>, s: seq<Stamp>, k: nat, c: Stamp)
    requires s == Sorted(rows) && k < |s| && c == s[k]
    ensures |Below(rows, c)| == k
  {
    BelowIsPrefix(rows, c);
    SplitsAtRow(s, k, |Below(rows, c)|);
  }

  lemma AboveAtRow(rows: set<Stamp>, s: seq<Stamp>, k: nat, c: Stamp)
    requires s == Sorted(rows) && k < |s| && c == s[k]
    ensures Lower(rows, c) == k + 1
  {
    AboveIsSuffix(rows, c);
    SplitsAtRow(s, k, Lower(rows, c));
  }

  /** A cursor at position `k` has `k` rows below it and starts the newer rows at `k + 1`. */
  lemma CountsAt(rows: set<Stamp>, k: nat)
    requires k < |Sorted(rows)|
    ensures |Below(rows, Sorted(rows)[k])| == k && Lower(rows, Sorted(rows)[k]) == k + 1
  {
    var s := Sorted(rows);
    var c := s[k];
    BelowAtRow(rows, s, k, c);
    AboveAtRow(rows, s, k, c);
  }

  // ---------------------------------------------------------------- next and back

  /** The pages of one log, by cursor. */
  type Pages = Option<Cursor> -> Page

  function PagesOf(rows: set<Stamp>, limit: nat): Pages {
    cursor => ListPage(rows, cursor, limit)
  }

  /** Next and then previous, on a log that does not change. */
  function NextAndBack(list: Pages, page: Page): Option<Page> {
    if page.next.None? then None
    else
      var second := list(page.next);
      if second.previous.None? then None else Some(list(second.previous))
  }

  /** Every page is the window its cursor names. */
  ghost predicate ListsWindows(list: Pages, s: seq<Stamp>, limit: nat)
    requires limit > 0
  {
    && list(None) == OlderWindow(s, |s|, false, limit)
    && (forall c, i | SplitBelow(s, c, i) :: list(Some(Older(c))) == OlderWindow(s, i, true, limit))
    && (forall c, j | SplitAbove(s, c, j) :: list(Some(Newer(c))) == NewerWindow(s, j, limit))
  }

  lemma SplitsUnique(s: seq<Stamp>, c: Stamp, i: nat, j: nat)
    ensures SplitBelow(s, c, i) && SplitBelow(s, c, j) ==> i == j
    ensures SplitAbove(s, c, i) && SplitAbove(s, c, j) ==> i == j
  {
    if i < j <= |s| {
      assert SplitBelow(s, c, j) ==> Before(s[i], c);
      assert SplitAbove(s, c, j) ==> !Before(c, s[i]);
    }
    if j < i <= |s| {
      assert SplitBelow(s, c, i) ==> Before(s[j], c);
      assert SplitAbove(s, c, i) ==> !Before(c, s[j]);
    }
  }

  lemma PagesAreWindows(rows: set<Stamp>, limit: nat)
    requires limit > 0
    ensures ListsWindows(PagesOf(rows, limit), Sorted(rows), limit)
  {
    var s, list := Sorted(rows), PagesOf(rows, limit);
    OlderPage(rows, None, limit);
    forall c, i | SplitBelow(s, c, i) ensures list(Some(Older(c))) == OlderWindow(s, i, true, limit) {
      OlderPage(rows, Some(Older(c)), limit);
      BelowIsPrefix(rows, c);
      SplitsUnique(s, c, i, |Below(rows, c)|);
    }
    forall c, j | SplitAbove(s, c, j) ensures list(Some(Newer(c))) == NewerWindow(s, j, limit) {
      NewerPage(rows, c, limit);
      AboveIsSuffix(rows, c);
      SplitsUnique(s, c, j, Lower(rows, c));
    }
  }

  lemma RowSplits(s: seq<Stamp>, k: nat)
    requires Ascending(s) && k < |s|
    ensures SplitBelow(s, s[k], k) && SplitAbove(s, s[k], k + 1)
  {
  }

  /** Next and back from any page whose next cursor is at position `lo > 0`. */
  lemma BackFrom(list: Pages, s: seq<Stamp>, page: Page, lo: nat, limit: nat)
    requires limit > 0 && Ascending(s) && ListsWindows(list, s, limit)
    requires 0 < lo < |s| && page.next == Some(Older(s[lo]))
    ensures NextAndBack(list, page) == Some(NewerWindow(s, lo, limit))
  {
    RowSplits(s, lo);
    RowSplits(s, lo - 1);
  }

  /** The same rows and the same next cursor. */
  predicate SameForward(a: Page, b: Page) {
    a.items == b.items && a.next == b.next
  }

  lemma WindowsAgree(s: seq<Stamp>, hi: nat, bounded: bool, limit: nat)
    requires 0 < limit < hi <= |s| && (bounded || hi == |s|)
    ensures var page, back := OlderWindow(s, hi, bounded, limit), NewerWindow(s, hi - limit, limit);
            && SameForward(back, page)
            && (back.previous == page.previous <==> !bounded || hi < |s|)
  {
  }

  predicate NothingNewer(rows: set<Stamp>, cursor: Option<Cursor>) {
    cursor.Some? && forall x | x in rows :: Before(x, cursor.value.row)
  }

  lemma NothingNewerAt(s: seq<Stamp>, c: Stamp, i: nat)
    requires SplitBelow(s, c, i)
    ensures NothingNewer(Elements(s), Some(Older(c))) <==> i == |s|
  {
    assert i < |s| ==> s[i] in Elements(s) && !Before(s[i], c);
  }

  lemma WindowReturns(list: Pages, s: seq<Stamp>, hi: nat, bounded: bool, limit: nat)
    requires limit > 0 && Ascending(s) && ListsWindows(list, s, limit)
    requires hi <= |s| && (bounded || hi == |s|) && OlderWindow(s, hi, bounded, limit).next.Some?
    ensures var page := OlderWindow(s, hi, bounded, limit);
            var back := NextAndBack(list, page);
            && back.Some? && SameForward(back.value, page)
            && (back.value.previous == page.previous <==> !bounded || hi < |s|)
  {
    BackFrom(list, s, OlderWindow(s, hi, bounded, limit), hi - limit, limit);
    WindowsAgree(s, hi, bounded, limit);
  }

  /** From an older page with a successor, next and previous lead back to the same rows and
      the same next cursor; to the same previous cursor as well exactly unless the page was
      asked for with a cursor newer than every row. */
  lemma NextThenPreviousReturns(rows: set<Stamp>, cursor: Option<Cursor>, limit: nat)
    requires limit > 0 && !Backwards(cursor)
    ensures var page := PagesOf(rows, limit)(cursor);
            var back := NextAndBack(PagesOf(rows, limit), page);
            page.next.Some? ==>
              && back.Some? && SameForward(back.value, page)
              && (back.value.previous == page.previous <==> !NothingNewer(rows, cursor))
  {
    PagesAreWindows(rows, limit);
    if PagesOf(rows, limit)(cursor).next.Some? {
      ReturnsAt(PagesOf(rows, limit), Sorted(rows), cursor, limit);
    }
  }

  lemma ReturnsAt(list: Pages, s: seq<Stamp>, cursor: Option<Cursor>, limit: nat)
    requires limit > 0 && Ascending(s) && ListsWindows(list, s, limit) && !Backwards(cursor) && list(cursor).next.Some?
    ensures var page := list(cursor);
            var back := NextAndBack(list, page);
            && back.Some? && SameForward(back.value, page)
            && (back.value.previous == page.previous <==> !NothingNewer(Elements(s), cursor))
  {
    if cursor.None? {
      WindowReturns(list, s, |s|, false, limit);
    } else {
      var i := PrefixBefore(s, cursor.value.row);
      WindowReturns(list, s, i, true, limit);
      NothingNewerAt(s, cursor.value.row, i);
    }
  }

  /** The cursors a page hands out are anchored at rows of the log, so walking by cursors the
      whole page comes back. */
  lemma AnchoredPageReturns(rows: set<Stamp>, cursor: Option<Cursor>, limit: nat)
    requires limit > 0 && !Backwards(cursor) && (cursor.Some? ==> cursor.value.row in rows)
    ensures var page := PagesOf(rows, limit)(cursor);
            var back := NextAndBack(PagesOf(rows, limit), page);
            page.next.Some? ==> back.Some? && SameForward(back.value, page) && back.value.previous == page.previous
  {
    NextThenPreviousReturns(rows, cursor, limit);
    assert cursor.Some? ==> !Before(cursor.value.row, cursor.value.row);
  }

  /** The same for a page reached by a previous cursor, whatever row it names: the page returns
      in every field exactly when some row is not newer than the cursor.  Otherwise the page
      starts at the oldest row, and the page after it is empty and names no way back. */
  lemma NewerPageReturns(rows: set<Stamp>, c: Stamp, limit: nat)
    requires limit > 0
    ensures var page := PagesOf(rows, limit)(Some(Newer(c)));
            page.next.Some? ==>
              NextAndBack(PagesOf(rows, limit), page) == if NothingOlder(rows, c) then None else Some(page)
  {
    PagesAreWindows(rows, limit);
    if PagesOf(rows, limit)(Some(Newer(c))).next.Some? {
      NewerReturnsAt(PagesOf(rows, limit), Sorted(rows), c, limit);
    }
  }

  predicate NothingOlder(rows: set<Stamp>, c: Stamp) {
    forall x | x in rows :: Before(c, x)
  }

  lemma NewerReturnsAt(list: Pages, s: seq<Stamp>, c: Stamp, limit: nat)
    requires limit > 0 && Ascending(s) && ListsWindows(list, s, limit) && list(Some(Newer(c))).next.Some?
    ensures var page := list(Some(Newer(c)));
            NextAndBack(list, page) == if NothingOlder(Elements(s), c) then None else Some(page)
  {
    var j := PrefixUpTo(s, c);
    assert j > 0 ==> s[0] in Elements(s) && !Before(c, s[0]);
    if j > 0 {
      BackFrom(list, s, NewerWindow(s, j, limit), j, limit);
    } else {
      RowSplits(s, 0);
    }
  }

  // ---------------------------------------------------------------- walks

  /** The rows seen by following next cursors over an unchanging log. */
  function Walk(rows: set<Stamp>, cursor: Option<Cursor>, limit: nat): seq<Stamp>
    requires limit > 0 && !Backwards(cursor)
    decreases Upper(rows, cursor)
  {
    var page := ListPage(rows, cursor, limit);
    OlderPage(rows, cursor, limit);
    if page.next.None? then page.items
    else
      CountsAt(rows, FloorSub(Upper(rows, cursor), limit));
      page.items + Walk(rows, page.next, limit)
  }

  lemma {:induction false} WalkIsDown(rows: set<Stamp>, cursor: Option<Cursor>, limit: nat)
    requires limit > 0 && !Backwards(cursor)
    ensures Upper(rows, cursor) <= |Sorted(rows)|
    ensures Walk(rows, cursor, limit) == Down(Sorted(rows), 0, Upper(rows, cursor))
    decreases Upper(rows, cursor)
  {
    var s, hi := Sorted(rows), Upper(rows, cursor);
    var lo := FloorSub(hi, limit);
    OlderPage(rows, cursor, limit);
    if lo > 0 {
      CountsAt(rows, lo);
      WalkIsDown(rows, Some(Older(s[lo])), limit);
      JoinDown(s, lo, hi);
    }
  }

  lemma JoinDown(s: seq<Stamp>, lo: nat, hi: nat)
    requires lo <= hi <= |s|
    ensures Down(s, lo, hi) + Down(s, 0, lo) == Down(s, 0, hi)
  {
  }

  lemma ReverseElements(s: seq<Stamp>)
    ensures Down(s, 0, |s|) == Reverse(s) && Elements(Reverse(s)) == Elements(s)
  {
    assert |Reverse(s)| == |s|;
    forall x ensures x in Elements(s) <==> x in Elements(Reverse(s)) {
      if x in Elements(s) {
        var k :| 0 <= k < |s| && s[k] == x;
        assert Reverse(s)[|s| - 1 - k] == x;
      }
    }
  }

  /** Following next cursors visits every matching row exactly once, newest first. */
  lemma WalkVisitsAll(rows: set<Stamp>, limit: nat)
    requires limit > 0
    ensures Walk(rows, None, limit) == Reverse(Sorted(rows))
    ensures Elements(Walk(rows, None, limit)) == rows
  {
    WalkIsDown(rows, None, limit);
    ReverseElements(Sorted(rows));
  }

  /** One request against the log of the moment. */
  type Pager = (set<Stamp>, Option<Cursor>) -> Page

  function PagerOf(limit: nat): Pager {
    (rows, cursor) => ListPage(rows, cursor, limit)
  }

  /** The rows seen by following next cursors while the log grows: `logs[k]` is the log at the
      k-th request. */
  function GrowingWalk(list: Pager, logs: seq<set<Stamp>>, cursor: Option<Cursor>): seq<Stamp> {
    if logs == [] then []
    else
      var page := list(logs[0], cursor);
      page.items + if page.next.None? then [] else GrowingWalk(list, logs[1..], page.next)
  }

  /** The walk reached a page without a successor. */
  predicate Finished(list: Pager, logs: seq<set<Stamp>>, cursor: Option<Cursor>) {
    logs != [] && var page := list(logs[0], cursor);
    page.next.None? || Finished(list, logs[1..], page.next)
  }

  predicate Growing(logs: seq<set<Stamp>>) {
    forall k | 0 < k < |logs| :: logs[k - 1] <= logs[k]
  }

  predicate Descending(s: seq<Stamp>) {
    forall i, j | 0 <= i < j < |s| :: Before(s[j], s[i])
  }

  predicate Earlier(cursor: Option<Cursor>, x: Stamp) {
    cursor.Some? ==> Before(x, cursor.value.row)
  }

  /** What one older page shows, and what it leaves for later. */
  ghost predicate PageCovers(page: Page, rows: set<Stamp>, cursor: Option<Cursor>) {
    && Descending(page.items)
    && (forall x | x in page.items :: x in rows && Earlier(cursor, x))
    && (page.next.Some? ==> page.next.value.Older? && page.items != []
                            && page.next.value.row == page.items[|page.items| - 1])
    && forall x | x in rows && Earlier(cursor, x) ::
         x in page.items || (page.next.Some? && Before(x, page.next.value.row))
  }

  lemma WindowCovers(s: seq<Stamp>, hi: nat, cursor: Option<Cursor>, limit: nat)
    requires Ascending(s) && limit > 0 && hi <= |s| && !Backwards(cursor)
    requires if cursor.None? then hi == |s| else SplitBelow(s, cursor.value.row, hi)
    ensures PageCovers(OlderWindow(s, hi, cursor.Some?, limit), Elements(s), cursor)
  {
    var page, lo := OlderWindow(s, hi, cursor.Some?, limit), FloorSub(hi, limit);
    forall x | x in Elements(s) && Earlier(cursor, x)
      ensures x in page.items || (page.next.Some? && Before(x, page.next.value.row))
    {
      var m :| 0 <= m < |s| && s[m] == x;
      if m >= lo {
        assert page.items[hi - 1 - m] == x;
      }
    }
    forall x | x in page.items ensures x in Elements(s) && Earlier(cursor, x) {
      var k :| 0 <= k < |page.items| && page.items[k] == x;
      assert x == s[hi - 1 - k];
    }
  }

  lemma OlderPageCovers(rows: set<Stamp>, cursor: Option<Cursor>, limit: nat)
    requires limit > 0 && !Backwards(cursor)
    ensures PageCovers(ListPage(rows, cursor, limit), rows, cursor)
  {
    OlderPage(rows, cursor, limit);
    if cursor.Some? {
      BelowIsPrefix(rows, cursor.value.row);
    }
    WindowCovers(Sorted(rows), Upper(rows, cursor), cursor, limit);
  }

  lemma JoinDescending(a: seq<Stamp>, b: seq<Stamp>)
    requires Descending(a) && Descending(b) && a != [] && forall y | y in b :: Before(y, a[|a| - 1])
    ensures Descending(a + b)
  {
    forall i, j | 0 <= i < j < |a + b| ensures Before((a + b)[j], (a + b)[i]) {
      if i < |a| <= j {
        assert b[j - |a|] in b;
        assert i < |a| - 1 ==> Before(a[|a| - 1], a[i]);
      }
    }
  }

  ghost predicate SafeWalk(walk: seq<Stamp>, rows: set<Stamp>, cursor: Option<Cursor>, finished: bool) {
    && Descending(walk)
    && (forall x | x in walk :: Earlier(cursor, x))
    && (finished ==> forall x | x in rows && Earlier(cursor, x) :: x in walk)
  }

  lemma OneMorePage(page: Page, rows: set<Stamp>, cursor: Option<Cursor>, rest: seq<Stamp>, later: set<Stamp>,
                    finished: bool)
    requires PageCovers(page, rows, cursor) && page.next.Some? && rows <= later
    requires SafeWalk(rest, later, page.next, finished)
    ensures SafeWalk(page.items + rest, rows, cursor, finished)
  {
    JoinDescending(page.items, rest);
    var last := page.items[|page.items| - 1];
    forall x | x in page.items + rest ensures Earlier(cursor, x) {
      assert last in page.items;
      assert x in rest ==> Before(x, last);
    }
    if finished {
      forall x | x in rows && Earlier(cursor, x) ensures x in page.items + rest {
        assert x in page.items || Earlier(page.next, x);
      }
    }
  }

  lemma {:induction false} CoveringWalkIsSafe(list: Pager, logs: seq<set<Stamp>>, cursor: Option<Cursor>)
    requires forall rows, c :: !Backwards(c) ==> PageCovers(list(rows, c), rows, c)
    requires !Backwards(cursor) && Growing(logs) && logs != []
    ensures SafeWalk(GrowingWalk(list, logs, cursor), logs[0], cursor, Finished(list, logs, cursor))
  {
    var page := list(logs[0], cursor);
    assert PageCovers(page, logs[0], cursor);
    if page.next.None? {
      assert page.items + [] == page.items;
    } else if |logs| == 1 {
      assert logs[1..] == [];
      assert GrowingWalk(list, [], page.next) == [] && !Finished(list, [], page.next);
      assert page.items + [] == page.items;
    } else {
      GrowingRest(logs);
      CoveringWalkIsSafe(list, logs[1..], page.next);
      OneMorePage(page, logs[0], cursor, GrowingWalk(list, logs[1..], page.next), logs[1],
                  Finished(list, logs[1..], page.next));
    }
  }

  /** With rows inserted between the requests, a walk towards older rows repeats none and,
      once finished, has skipped none that was there from the start. */
  lemma GrowingWalkIsSafe(logs: seq<set<Stamp>>, cursor: Option<Cursor>, limit: nat)
    requires limit > 0 && !Backwards(cursor) && Growing(logs) && logs != []
    ensures SafeWalk(GrowingWalk(PagerOf(limit), logs, cursor), logs[0], cursor,
                     Finished(PagerOf(limit), logs, cursor))
  {
    var list := PagerOf(limit);
    forall rows, c | !Backwards(c) ensures PageCovers(list(rows, c), rows, c) {
      OlderPageCovers(rows, c, limit);
    }
    CoveringWalkIsSafe(list, logs, cursor);
  }

  lemma GrowingRest(logs: seq<set<Stamp>>)
    requires Growing(logs) && |logs| > 1
    ensures Growing(logs[1..]) && logs[1..][0] == logs[1] && logs[0] <= logs[1]
  {
    var rest := logs[1..];
    assert forall k | 0 < k < |rest| :: rest[k - 1] == logs[k] && rest[k] == logs[k + 1];
  }
}
