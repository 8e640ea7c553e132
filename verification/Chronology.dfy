/** Values shared by the other modules: an optional value, and the total order on
    (instant, id) pairs by which the repository orders its event log. */
module Chronology {

  datatype Option<+T> = None | Some(value: T)

  /** A row of the event log: its instant in milliseconds and its id. */
  datatype Stamp = Stamp(at: int, id: nat)

  predicate Before(a: Stamp, b: Stamp) {
    a.at < b.at || (a.at == b.at && a.id < b.id)
  }

  predicate Ascending(s: seq<Stamp>) {
    forall i, j | 0 <= i < j < |s| :: Before(s[i], s[j])
  }

  function Elements(s: seq<Stamp>): set<Stamp> {
    set x | x in s
  }

  ghost predicate IsEarliest(x: Stamp, s: set<Stamp>) {
    x in s && forall y | y in s :: y == x || Before(x, y)
  }

  lemma {:induction false} EarliestExists(s: set<Stamp>)
    requires s != {}
    ensures exists x :: IsEarliest(x, s)
  {
    var z :| z in s;
    var rest := s - {z};
    if rest == {} {
      assert s == {z} + rest;
      assert IsEarliest(z, s);
    } else {
      EarliestExists(rest);
      var x :| IsEarliest(x, rest);
      var m := if Before(z, x) then z else x;
      forall y | y in s ensures y == m || Before(m, y) {
        assert y == z || y in rest;
      }
      assert IsEarliest(m, s);
    }
  }

  function Earliest(s: set<Stamp>): (x: Stamp)
    requires s != {}
    ensures x in s && forall y | y in s :: y == x || Before(x, y)
  {
    EarliestExists(s);
    assert exists x :: x in s && forall y | y in s :: y == x || Before(x, y) by {
      var x :| IsEarliest(x, s);
    }
    var x :| x in s && forall y | y in s :: y == x || Before(x, y);
    x
  }

  lemma PutFirst(x: Stamp, rest: seq<Stamp>, s: set<Stamp>)
    requires IsEarliest(x, s) && Ascending(rest) && Elements(rest) == s - {x} && |rest| == |s - {x}|
    ensures Ascending([x] + rest) && Elements([x] + rest) == s && |[x] + rest| == |s|
  {
    forall y | y in rest ensures Before(x, y) {
      assert y in Elements(rest);
    }
    assert s == {x} + (s - {x});
    assert forall y :: y in [x] + rest <==> y == x || y in Elements(rest);
  }

  /** The rows of `s` in ascending order: what a query ordered by (instant, id) returns. */
  function Sorted(s: set<Stamp>): (r: seq<Stamp>)
    ensures Ascending(r) && Elements(r) == s && |r| == |s|
  {
    if s == {} then []
    else
      var x := Earliest(s);
      var rest := Sorted(s - {x});
      PutFirst(x, rest, s);
      [x] + rest
  }

  /** An ascending sequence is determined by its elements. */
  lemma {:induction false} AscendingUnique(a: seq<Stamp>, b: seq<Stamp>)
    requires Ascending(a) && Ascending(b) && Elements(a) == Elements(b)
    ensures a == b
  {
    if a == [] {
      assert forall i | 0 <= i < |b| :: b[i] in Elements(b);
    } else {
      assert a[0] in Elements(b) && b != [];
      assert b[0] in Elements(a);
      assert a[0] == b[0];
      forall x ensures x in Elements(a[1..]) <==> x in Elements(b[1..]) {
        if x in Elements(a[1..]) {
          assert x in Elements(a) && x != a[0];
        }
        if x in Elements(b[1..]) {
          assert x in Elements(b) && x != b[0];
        }
      }
      AscendingUnique(a[1..], b[1..]);
      assert a == [a[0]] + a[1..] && b == [b[0]] + b[1..];
    }
  }

  lemma SortedOfAscending(a: seq<Stamp>)
    requires Ascending(a)
    ensures Sorted(Elements(a)) == a
  {
    AscendingUnique(Sorted(Elements(a)), a);
  }

  /** Cutting an ascending sequence separates the rows up to the cut from those after it. */
  lemma CutAscending(a: seq<Stamp>, m: nat)
    requires Ascending(a) && 0 < m <= |a|
    ensures forall x | x in a[..m] :: x in a && !Before(a[m - 1], x)
    ensures forall x | x in a[m..] :: x in a && Before(a[m - 1], x)
    ensures forall x | x in a :: x in a[..m] || x in a[m..]
  {
    assert forall i | 0 <= i < m - 1 :: Before(a[i], a[m - 1]);
    assert a == a[..m] + a[m..];
  }

  /** The last element of an ascending sequence is its latest. */
  lemma LastIsLatest(a: seq<Stamp>, x: Stamp)
    requires Ascending(a) && x in a
    ensures x == a[|a| - 1] || Before(x, a[|a| - 1])
  {
    var i :| 0 <= i < |a| && a[i] == x;
    assert i < |a| - 1 ==> Before(a[i], a[|a| - 1]);
  }

  ghost predicate IsLatest(x: Stamp, s: set<Stamp>) {
    x in s && forall y | y in s :: y == x || Before(y, x)
  }

  lemma LatestExists(s: set<Stamp>)
    requires s != {}
    ensures exists x :: IsLatest(x, s)
  {
    var sorted := Sorted(s);
    var last := sorted[|sorted| - 1];
    assert last in Elements(sorted);
    forall y | y in s ensures y == last || Before(y, last) {
      assert y in Elements(sorted);
      LastIsLatest(sorted, y);
    }
    assert IsLatest(last, s);
  }

  function Latest(s: set<Stamp>): (x: Stamp)
    requires s != {}
    ensures x in s && forall y | y in s :: y == x || Before(y, x)
  {
    LatestExists(s);
    assert exists x :: x in s && forall y | y in s :: y == x || Before(y, x) by {
      var x :| IsLatest(x, s);
    }
    var x :| x in s && forall y | y in s :: y == x || Before(y, x);
    x
  }
}
