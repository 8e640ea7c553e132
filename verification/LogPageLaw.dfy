/** What one page of the security log shows and which cursors it hands out, by instants and ids. */
module LogPageLaw {
  import opened Chronology
  import opened SecurityLogPages

  predicate Later(a: Stamp, b: Stamp) {
    a.at > b.at || (a.at == b.at && a.id > b.id)
  }

  predicate NewestFirst(items: seq<Stamp>) {
    forall i, j | 0 <= i < j < |items| :: Later(items[i], items[j])
  }

  /** The page shows these rows up to the limit, newest first. */
  ghost predicate Shows(items: seq<Stamp>, left: set<Stamp>, limit: nat) {
    && NewestFirst(items) && (forall x | x in items :: x in left)
    && |items| == if |left| > limit then limit else |left|
  }

  lemma WindowShows(s: seq<Stamp>, lo: nat, hi: nat)
    requires Ascending(s) && lo <= hi <= |s|
    ensures NewestFirst(Down(s, lo, hi)) && |Down(s, lo, hi)| == hi - lo
    ensures forall k | lo <= k < hi :: s[k] in Down(s, lo, hi)
    ensures forall x | x in Down(s, lo, hi) :: exists k :: lo <= k < hi && s[k] == x
  {
    var items := Down(s, lo, hi);
    forall k | lo <= k < hi ensures s[k] in items {
      assert items[hi - 1 - k] == s[k];
    }
    forall x | x in items ensures exists k :: lo <= k < hi && s[k] == x {
      var i :| 0 <= i < |items| && items[i] == x;
      assert s[hi - 1 - i] == x;
    }
  }

  lemma WindowOfLeft(s: seq<Stamp>, lo: nat, hi: nat, left: set<Stamp>, limit: nat)
    requires Ascending(s) && lo <= hi <= |s| && hi - lo == if |left| > limit then limit else |left|
    requires forall k | lo <= k < hi :: s[k] in left
    ensures Shows(Down(s, lo, hi), left, limit)
    ensures lo < hi ==> Down(s, lo, hi)[0] == s[hi - 1] && Down(s, lo, hi)[hi - lo - 1] == s[lo]
  {
    WindowShows(s, lo, hi);
  }

  /** The rows an older page may show: those before the cursor, or all. */
  function OlderRows(rows: set<Stamp>, cursor: Option<Stamp>): set<Stamp> {
    set x | x in rows && (cursor.Some? ==> Later(cursor.value, x))
  }

  lemma OlderRowsAt(rows: set<Stamp>, cursor: Option<Stamp>)
    ensures var s, left := Sorted(rows), OlderRows(rows, cursor);
            |left| <= |s| && forall k | 0 <= k < |s| :: s[k] in left <==> k < |left|
  {
    var s := Sorted(rows);
    if cursor.Some? {
      assert OlderRows(rows, cursor) == Below(rows, cursor.value);
      BelowIsPrefix(rows, cursor.value);
      forall k | 0 <= k < |s| ensures s[k] in Below(rows, cursor.value) <==> Before(s[k], cursor.value) {
        assert s[k] in Elements(s);
      }
    } else {
      assert OlderRows(rows, cursor) == rows;
      assert forall k | 0 <= k < |s| :: s[k] in Elements(s);
    }
  }

  /** The newest rows of those that are left, and every row left out older; a way on exactly if some
      are left out, and a way back if the page was asked for with a cursor. */
  ghost predicate OlderPageOfRows(page: Page, left: set<Stamp>, asked: bool, limit: nat)
    requires limit > 0
  {
    && Shows(page.items, left, limit)
    && (forall x, y | x in page.items && y in left && y !in page.items :: Later(x, y))
    && (page.hasNextPage <==> |left| > limit)
    && page.next == (if |left| > limit then Some(Older(page.items[|page.items| - 1])) else None)
    && (page.hasPreviousPage <==> asked)
    && page.previous == if asked && page.items != [] then Some(Newer(page.items[0])) else None
  }

  lemma LeftOutAreOlder(s: seq<Stamp>, lo: nat, hi: nat, left: set<Stamp>)
    requires Ascending(s) && lo <= hi <= |s| && left <= Elements(s)
    requires forall k | 0 <= k < |s| :: s[k] in left <==> k < hi
    ensures forall x, y | x in Down(s, lo, hi) && y in left && y !in Down(s, lo, hi) :: Later(x, y)
  {
    WindowShows(s, lo, hi);
    forall x, y | x in Down(s, lo, hi) && y in left && y !in Down(s, lo, hi) ensures Later(x, y) {
      var k :| lo <= k < hi && s[k] == x;
      var m :| 0 <= m < |s| && s[m] == y;
      assert m < lo;
    }
  }

  lemma OlderWindowIsExact(s: seq<Stamp>, left: set<Stamp>, asked: bool, limit: nat)
    requires limit > 0 && Ascending(s) && |left| <= |s| && left <= Elements(s)
    requires forall k | 0 <= k < |s| :: s[k] in left <==> k < |left|
    ensures OlderPageOfRows(OlderWindow(s, |left|, asked, limit), left, asked, limit)
  {
    var hi, lo := |left|, FloorSub(|left|, limit);
    LeftOutAreOlder(s, lo, hi, left);
    WindowOfLeft(s, lo, hi, left, limit);
  }

  /** An older page, or the first, shows the newest rows before its cursor. */
  lemma OlderPageIsExact(rows: set<Stamp>, cursor: Option<Stamp>, limit: nat)
    requires limit > 0
    ensures OlderPageOfRows(ListPage(rows, if cursor.Some? then Some(Older(cursor.value)) else None, limit),
                            OlderRows(rows, cursor), cursor.Some?, limit)
  {
    OlderRowsAt(rows, cursor);
    OlderPage(rows, if cursor.Some? then Some(Older(cursor.value)) else None, limit);
    UpperIsCount(rows, cursor);
    OlderWindowIsExact(Sorted(rows), OlderRows(rows, cursor), cursor.Some?, limit);
  }

  lemma UpperIsCount(rows: set<Stamp>, cursor: Option<Stamp>)
    ensures Upper(rows, if cursor.Some? then Some(Older(cursor.value)) else None) == |OlderRows(rows, cursor)|
  {
    if cursor.Some? {
      assert OlderRows(rows, cursor) == Below(rows, cursor.value);
    } else {
      assert OlderRows(rows, cursor) == rows;
    }
  }

  function NewerRows(rows: set<Stamp>, c: Stamp): set<Stamp> {
    set x | x in rows && Later(x, c)
  }

  lemma NewerRowsAt(rows: set<Stamp>, c: Stamp)
    ensures var s := Sorted(rows);
            && Lower(rows, c) == |s| - |NewerRows(rows, c)|
            && forall k | 0 <= k < |s| :: s[k] in NewerRows(rows, c) <==> k >= Lower(rows, c)
  {
    var s := Sorted(rows);
    assert NewerRows(rows, c) == Above(rows, c);
    AboveIsSuffix(rows, c);
    forall k | 0 <= k < |s| ensures s[k] in Above(rows, c) <==> Before(c, s[k]) {
      assert s[k] in Elements(s);
    }
  }

  /** The oldest rows of those that are left, newest first, and every row left out newer; a way back
      exactly if some are left out, and a way on from the last row. */
  ghost predicate NewerPageOfRows(page: Page, left: set<Stamp>, limit: nat)
    requires limit > 0
  {
    && Shows(page.items, left, limit)
    && (forall x, y | x in page.items && y in left && y !in page.items :: Later(y, x))
    && page.hasNextPage
    && page.next == (if page.items != [] then Some(Older(page.items[|page.items| - 1])) else None)
    && (page.hasPreviousPage <==> |left| > limit)
    && page.previous == if |left| > limit then Some(Newer(page.items[0])) else None
  }

  lemma LeftOutAreNewer(s: seq<Stamp>, j: nat, hi: nat, left: set<Stamp>)
    requires Ascending(s) && j <= hi <= |s| && left <= Elements(s)
    requires forall k | 0 <= k < |s| :: s[k] in left <==> k >= j
    ensures forall x, y | x in Down(s, j, hi) && y in left && y !in Down(s, j, hi) :: Later(y, x)
  {
    WindowShows(s, j, hi);
    forall x, y | x in Down(s, j, hi) && y in left && y !in Down(s, j, hi) ensures Later(y, x) {
      var k :| j <= k < hi && s[k] == x;
      var m :| 0 <= m < |s| && s[m] == y;
      assert m >= hi;
    }
  }

  lemma NewerWindowIsExact(s: seq<Stamp>, j: nat, left: set<Stamp>, limit: nat)
    requires limit > 0 && Ascending(s) && j == |s| - |left| && left <= Elements(s)
    requires forall k | 0 <= k < |s| :: s[k] in left <==> k >= j
    ensures NewerPageOfRows(NewerWindow(s, j, limit), left, limit)
  {
    var hi := SecurityLogPages.Smaller(j + limit, |s|);
    LeftOutAreNewer(s, j, hi, left);
    WindowOfLeft(s, j, hi, left, limit);
  }

  /** A newer page shows the oldest rows after its cursor. */
  lemma NewerPageIsExact(rows: set<Stamp>, c: Stamp, limit: nat)
    requires limit > 0
    ensures NewerPageOfRows(ListPage(rows, Some(Newer(c)), limit), NewerRows(rows, c), limit)
  {
    NewerRowsAt(rows, c);
    NewerPage(rows, c, limit);
    NewerWindowIsExact(Sorted(rows), Lower(rows, c), NewerRows(rows, c), limit);
  }
}
