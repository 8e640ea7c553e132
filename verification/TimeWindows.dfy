/** Subtraction of used blocks from a window by a cursor sweep over the sorted blocks, and
    what the sweep computes: the maximal windows free of every block. */
module TimeWindows {

  datatype Window = Window(start: int, end: int)

  predicate Covers(w: Window, m: int) {
    w.start <= m < w.end
  }

  predicate Overlaps(a: Window, b: Window) {
    a.start < b.end && a.end > b.start
  }

  predicate Inside(r: Window, w: Window) {
    w.start <= r.start && r.end <= w.end
  }

  function Max(a: int, b: int): int { if a < b then b else a }

  function Min(a: int, b: int): int { if a < b then a else b }

  // ---------------------------------------------------------------- sorting

  predicate SortedByStart(s: seq<Window>) {
    forall i, j | 0 <= i < j < |s| :: s[i].start <= s[j].start
  }

  function InsertByStart(s: seq<Window>, w: Window): (r: seq<Window>)
    requires SortedByStart(s)
    ensures SortedByStart(r) && forall x :: x in r <==> x in s || x == w
  {
    if s == [] || s[|s| - 1].start <= w.start then s + [w]
    else
      var rest := InsertByStart(s[..|s| - 1], w);
      assert forall x | x in rest :: x.start <= s[|s| - 1].start;
      rest + [s[|s| - 1]]
  }

  function SortByStart(s: seq<Window>): (r: seq<Window>)
    ensures SortedByStart(r) && forall x :: x in r <==> x in s
  {
    if s == [] then [] else InsertByStart(SortByStart(s[..|s| - 1]), s[|s| - 1])
  }

  // ---------------------------------------------------------------- the sweep

  function Sweep(base: Window, sorted: seq<Window>, cursor: int): seq<Window> {
    if sorted == [] || sorted[0].start >= base.end then
      if cursor < base.end then [Window(cursor, base.end)] else []
    else
      var blockStart := Max(sorted[0].start, base.start);
      var blockEnd := Min(sorted[0].end, base.end);
      (if blockStart > cursor then [Window(cursor, blockStart)] else [])
      + Sweep(base, sorted[1..], Max(cursor, blockEnd))
  }

  function Subtract(base: Window, used: seq<Window>): seq<Window> {
    Sweep(base, SortByStart(used), base.start)
  }

  method SubtractWindows(base: Window, used: seq<Window>) returns (free: seq<Window>)
    ensures free == Subtract(base, used)
  {
    var sorted := SortByStart(used);
    free := [];
    var cursor := base.start;
    var i := 0;
    while i < |sorted|
      invariant 0 <= i <= |sorted|
      invariant free + Sweep(base, sorted[i..], cursor) == Subtract(base, used)
    {
      var block := sorted[i];
      if block.start >= base.end {
        break;
      }
      assert sorted[i..][1..] == sorted[i + 1..];
      var blockStart := Max(block.start, base.start);
      var blockEnd := Min(block.end, base.end);
      if blockStart > cursor {
        free := free + [Window(cursor, blockStart)];
      }
      cursor := Max(cursor, blockEnd);
      i := i + 1;
    }
    if cursor < base.end {
      free := free + [Window(cursor, base.end)];
    }
  }

  // ---------------------------------------------------------------- minutes

  ghost predicate CoveredBy(windows: seq<Window>, m: int) {
    exists w :: w in windows && Covers(w, m)
  }

  lemma CoveredByConcat(a: seq<Window>, b: seq<Window>, m: int)
    ensures CoveredBy(a + b, m) <==> CoveredBy(a, m) || CoveredBy(b, m)
  {
  }

  lemma {:induction false} SweepMinutes(base: Window, sorted: seq<Window>, cursor: int, m: int)
    requires SortedByStart(sorted) && base.start <= cursor
    ensures CoveredBy(Sweep(base, sorted, cursor), m) <==> cursor <= m < base.end && !CoveredBy(sorted, m)
  {
    if sorted == [] || sorted[0].start >= base.end {
      if cursor < base.end {
        assert Sweep(base, sorted, cursor) == [Window(cursor, base.end)];
        assert Window(cursor, base.end) in Sweep(base, sorted, cursor);
      }
    } else {
      var blockStart := Max(sorted[0].start, base.start);
      var next := Max(cursor, Min(sorted[0].end, base.end));
      var head := if blockStart > cursor then [Window(cursor, blockStart)] else [];
      SweepMinutes(base, sorted[1..], next, m);
      CoveredByConcat(head, Sweep(base, sorted[1..], next), m);
      assert sorted == [sorted[0]] + sorted[1..];
      CoveredByConcat([sorted[0]], sorted[1..], m);
      assert CoveredBy([sorted[0]], m) <==> Covers(sorted[0], m) by {
        assert sorted[0] in [sorted[0]];
      }
      assert CoveredBy(head, m) <==> cursor <= m < blockStart by {
        assert blockStart > cursor ==> Window(cursor, blockStart) in head;
      }
    }
  }

  /** The sweep returns exactly the minutes of the base that no block covers, for blocks of
      any shape and in any order. */
  lemma SubtractMinutes(base: Window, used: seq<Window>, m: int)
    ensures CoveredBy(Subtract(base, used), m) <==> Covers(base, m) && !CoveredBy(used, m)
  {
    SweepMinutes(base, SortByStart(used), base.start, m);
  }

  // ---------------------------------------------------------------- requests

  /** No block ends before it starts. */
  predicate Forward(used: seq<Window>) {
    forall b | b in used :: b.start <= b.end
  }

  /** A non-empty request in the base that overlaps no block. */
  predicate IsFree(base: Window, used: seq<Window>, r: Window) {
    r.start < r.end && Inside(r, base) && forall b | b in used :: !Overlaps(b, r)
  }

  predicate Fits(windows: seq<Window>, r: Window) {
    exists w :: w in windows && Inside(r, w)
  }

  /** Non-empty windows, each ending no later than the next begins. */
  predicate Ordered(s: seq<Window>) {
    && (forall i | 0 <= i < |s| :: s[i].start < s[i].end)
    && forall i, j | 0 <= i < j < |s| :: s[i].end <= s[j].start
  }

  lemma {:induction false} SweepOrdered(base: Window, sorted: seq<Window>, cursor: int)
    requires SortedByStart(sorted) && Forward(sorted) && base.start <= cursor
    ensures Ordered(Sweep(base, sorted, cursor))
    ensures forall w | w in Sweep(base, sorted, cursor) :: cursor <= w.start && w.end <= base.end
  {
    if sorted != [] && sorted[0].start < base.end {
      var next := Max(cursor, Min(sorted[0].end, base.end));
      SweepOrdered(base, sorted[1..], next);
    }
  }

  lemma {:induction false} SweepFits(base: Window, sorted: seq<Window>, cursor: int, r: Window)
    requires SortedByStart(sorted) && Forward(sorted) && base.start <= cursor && r.start < r.end
    ensures Fits(Sweep(base, sorted, cursor), r)
       <==> cursor <= r.start && r.end <= base.end && forall b | b in sorted :: !Overlaps(b, r)
  {
    var sweep := Sweep(base, sorted, cursor);
    if sorted == [] || sorted[0].start >= base.end {
      if cursor < base.end {
        assert sweep == [Window(cursor, base.end)];
        assert Window(cursor, base.end) in sweep;
      }
    } else {
      var block := sorted[0];
      var blockStart := Max(block.start, base.start);
      var next := Max(cursor, Min(block.end, base.end));
      var head := if blockStart > cursor then [Window(cursor, blockStart)] else [];
      var rest := Sweep(base, sorted[1..], next);
      SweepFits(base, sorted[1..], next, r);
      assert forall b :: b in sorted <==> b == block || b in sorted[1..];
      assert Fits(sweep, r) <==> Fits(head, r) || Fits(rest, r) by {
        assert forall w :: w in sweep <==> w in head || w in rest;
      }
      assert Fits(head, r) <==> cursor <= r.start && r.end <= blockStart && blockStart > cursor by {
        assert blockStart > cursor ==> Window(cursor, blockStart) in head;
      }
      assert forall b | b in sorted[1..] :: block.start <= b.start;
      assert Fits(head, r) ==> r.end <= block.start && forall b | b in sorted[1..] :: !Overlaps(b, r);
      assert !Fits(head, r) && cursor <= r.start && r.end <= base.end && !Overlaps(block, r) ==> next <= r.start;
      assert Fits(rest, r) ==> !Overlaps(block, r);
    }
  }

  /** A request fits inside one returned window exactly when it lies in the base and
      overlaps no block. */
  lemma SubtractFits(base: Window, used: seq<Window>, r: Window)
    requires Forward(used) && r.start < r.end
    ensures Fits(Subtract(base, used), r) <==> IsFree(base, used, r)
  {
    SweepFits(base, SortByStart(used), base.start, r);
  }

  lemma SubtractOrdered(base: Window, used: seq<Window>)
    requires Forward(used)
    ensures Ordered(Subtract(base, used))
  {
    SweepOrdered(base, SortByStart(used), base.start);
  }

  // ---------------------------------------------------------------- maximality

  ghost predicate MaximalFree(base: Window, used: seq<Window>, w: Window) {
    IsFree(base, used, w) && forall v | IsFree(base, used, v) && Inside(w, v) :: v == w
  }

  lemma OrderedMeet(s: seq<Window>, a: Window, b: Window, r: Window)
    requires Ordered(s) && a in s && b in s
    requires r.start < r.end && Inside(r, a) && Inside(r, b)
    ensures a == b
  {
    var i :| 0 <= i < |s| && s[i] == a;
    var j :| 0 <= j < |s| && s[j] == b;
  }

  /** The returned windows are the maximal free windows, all of them and no others. */
  lemma SubtractIsMaximalFree(base: Window, used: seq<Window>, w: Window)
    requires Forward(used)
    ensures w in Subtract(base, used) <==> MaximalFree(base, used, w)
  {
    var free := Subtract(base, used);
    SubtractOrdered(base, used);
    if w in free {
      assert Inside(w, w);
      SubtractFits(base, used, w);
      forall v | IsFree(base, used, v) && Inside(w, v) ensures v == w {
        SubtractFits(base, used, v);
        var u :| u in free && Inside(v, u);
        OrderedMeet(free, w, u, w);
      }
    }
    if MaximalFree(base, used, w) {
      SubtractFits(base, used, w);
      var u :| u in free && Inside(w, u);
      assert Inside(u, u);
      SubtractFits(base, used, u);
    }
  }

  lemma {:induction false} OrderedUnique(a: seq<Window>, b: seq<Window>)
    requires Ordered(a) && Ordered(b) && forall w :: w in a <==> w in b
    ensures a == b
  {
    if a == [] {
      assert forall i | 0 <= i < |b| :: b[i] in a;
    } else {
      assert a[0] in b;
      assert b != [] && b[0] in a;
      assert a[0] == b[0];
      forall w ensures w in a[1..] <==> w in b[1..] {
        assert w in a[1..] ==> w in a && a[0].end <= w.start;
        assert w in b[1..] ==> w in b && b[0].end <= w.start;
      }
      OrderedUnique(a[1..], b[1..]);
      assert a == [a[0]] + a[1..] && b == [b[0]] + b[1..];
    }
  }

  /** Neither the order nor the multiplicity of the blocks matters. */
  lemma SubtractIgnoresOrder(base: Window, a: seq<Window>, b: seq<Window>)
    requires Forward(a) && forall x :: x in a <==> x in b
    ensures Subtract(base, a) == Subtract(base, b)
  {
    SubtractOrdered(base, a);
    SubtractOrdered(base, b);
    forall w ensures w in Subtract(base, a) <==> w in Subtract(base, b) {
      SubtractIsMaximalFree(base, a, w);
      SubtractIsMaximalFree(base, b, w);
    }
    OrderedUnique(Subtract(base, a), Subtract(base, b));
  }

  // ---------------------------------------------------------------- subtraction in stages

  /** The blocks subtracted from every window of a list, in order. */
  function SubtractFromAll(windows: seq<Window>, used: seq<Window>): seq<Window> {
    if windows == [] then [] else Subtract(windows[0], used) + SubtractFromAll(windows[1..], used)
  }

  lemma {:induction false} SubtractFromAllOrdered(windows: seq<Window>, used: seq<Window>)
    requires Ordered(windows) && Forward(used)
    ensures Ordered(SubtractFromAll(windows, used))
    ensures forall x | x in SubtractFromAll(windows, used) :: windows != [] && windows[0].start <= x.start
  {
    if windows != [] {
      var head, rest := Subtract(windows[0], used), SubtractFromAll(windows[1..], used);
      SweepOrdered(windows[0], SortByStart(used), windows[0].start);
      SubtractFromAllOrdered(windows[1..], used);
      forall x, y | x in head && y in rest ensures x.end <= y.start {
        assert windows[0].end <= windows[1].start;
      }
    }
  }

  lemma {:induction false} SubtractFromAllElements(windows: seq<Window>, used: seq<Window>, x: Window)
    ensures x in SubtractFromAll(windows, used) <==> exists w :: w in windows && x in Subtract(w, used)
  {
    if windows != [] {
      SubtractFromAllElements(windows[1..], used, x);
      assert forall w :: w in windows <==> w == windows[0] || w in windows[1..];
    }
  }

  lemma StagesElement(base: Window, a: seq<Window>, b: seq<Window>, x: Window)
    requires Forward(a) && Forward(b)
    ensures x in SubtractFromAll(Subtract(base, a), b) <==> MaximalFree(base, a + b, x)
  {
    var first := Subtract(base, a);
    SubtractOrdered(base, a);
    SubtractFromAllElements(first, b, x);
    if x in SubtractFromAll(first, b) {
      var w :| w in first && x in Subtract(w, b);
      StageInwards(base, a, b, w, x);
    }
    if MaximalFree(base, a + b, x) {
      assert IsFree(base, a, x);
      SubtractFits(base, a, x);
      var w :| w in first && Inside(x, w);
      StageOutwards(base, a, b, w, x);
    }
  }

  lemma FreeInStages(base: Window, a: seq<Window>, b: seq<Window>, w: Window, v: Window)
    requires IsFree(base, a, w) && Inside(v, w)
    ensures IsFree(w, b, v) <==> IsFree(base, a + b, v)
  {
    assert forall c :: c in a + b <==> c in a || c in b;
    assert v.start < v.end ==> forall c | c in a :: Overlaps(c, v) ==> Overlaps(c, w);
  }

  lemma StageInwards(base: Window, a: seq<Window>, b: seq<Window>, w: Window, x: Window)
    requires Forward(a) && Forward(b) && w in Subtract(base, a) && x in Subtract(w, b)
    ensures MaximalFree(base, a + b, x)
  {
    SubtractIsMaximalFree(base, a, w);
    SubtractIsMaximalFree(w, b, x);
    FreeInStages(base, a, b, w, x);
    forall v | IsFree(base, a + b, v) && Inside(x, v) ensures v == x {
      assert IsFree(base, a, v);
      SubtractFits(base, a, v);
      var u :| u in Subtract(base, a) && Inside(v, u);
      SubtractOrdered(base, a);
      OrderedMeet(Subtract(base, a), u, w, x);
      FreeInStages(base, a, b, w, v);
    }
  }

  lemma StageOutwards(base: Window, a: seq<Window>, b: seq<Window>, w: Window, x: Window)
    requires Forward(a) && Forward(b) && w in Subtract(base, a)
    requires MaximalFree(base, a + b, x) && Inside(x, w)
    ensures x in Subtract(w, b)
  {
    SubtractIsMaximalFree(base, a, w);
    FreeInStages(base, a, b, w, x);
    forall v | IsFree(w, b, v) && Inside(x, v) ensures v == x {
      FreeInStages(base, a, b, w, v);
    }
    SubtractIsMaximalFree(w, b, x);
  }

  /** Subtracting in two stages, window by window, is one subtraction. */
  lemma SubtractInStages(base: Window, a: seq<Window>, b: seq<Window>)
    requires Forward(a) && Forward(b)
    ensures SubtractFromAll(Subtract(base, a), b) == Subtract(base, a + b)
  {
    SubtractOrdered(base, a);
    SubtractFromAllOrdered(Subtract(base, a), b);
    SubtractOrdered(base, a + b);
    forall x ensures x in SubtractFromAll(Subtract(base, a), b) <==> x in Subtract(base, a + b) {
      StagesElement(base, a, b, x);
      SubtractIsMaximalFree(base, a + b, x);
    }
    OrderedUnique(SubtractFromAll(Subtract(base, a), b), Subtract(base, a + b));
  }

  lemma {:induction false} SubtractFromAllConcat(v: seq<Window>, w: seq<Window>, used: seq<Window>)
    ensures SubtractFromAll(v + w, used) == SubtractFromAll(v, used) + SubtractFromAll(w, used)
  {
    if v == [] {
      assert v + w == w;
    } else {
      assert (v + w)[1..] == v[1..] + w;
      SubtractFromAllConcat(v[1..], w, used);
    }
  }

  /** The same for a list of windows. */
  lemma {:induction false} SubtractFromAllInStages(windows: seq<Window>, a: seq<Window>, b: seq<Window>)
    requires Forward(a) && Forward(b)
    ensures SubtractFromAll(SubtractFromAll(windows, a), b) == SubtractFromAll(windows, a + b)
  {
    if windows != [] {
      SubtractFromAllConcat(Subtract(windows[0], a), SubtractFromAll(windows[1..], a), b);
      SubtractInStages(windows[0], a, b);
      SubtractFromAllInStages(windows[1..], a, b);
    }
  }

  lemma {:induction false} SubtractFromAllIgnoresOrder(windows: seq<Window>, a: seq<Window>, b: seq<Window>)
    requires Forward(a) && forall x :: x in a <==> x in b
    ensures SubtractFromAll(windows, a) == SubtractFromAll(windows, b)
  {
    if windows != [] {
      SubtractIgnoresOrder(windows[0], a, b);
      SubtractFromAllIgnoresOrder(windows[1..], a, b);
    }
  }

  /** Instructor, student and vehicle blocks, subtracted in turn and in any order from a list of
      windows, leave what one subtraction of all the blocks together leaves. */
  lemma ThreeStagesInAnyOrder(windows: seq<Window>, a: seq<Window>, b: seq<Window>, c: seq<Window>, all: seq<Window>)
    requires Forward(a) && Forward(b) && Forward(c)
    requires forall x :: x in all <==> x in a || x in b || x in c
    ensures SubtractFromAll(SubtractFromAll(SubtractFromAll(windows, a), b), c) == SubtractFromAll(windows, all)
  {
    SubtractFromAllInStages(windows, a, b);
    SubtractFromAllInStages(windows, a + b, c);
    SubtractFromAllIgnoresOrder(windows, a + b + c, all);
  }

  // ---------------------------------------------------------------- slots

  /** Equal slots from the start of the window; what is left over is shorter than a slot. */
  method SplitWindowIntoSlots(window: Window, duration: int) returns (slots: seq<Window>)
    requires duration > 0
    ensures forall i | 0 <= i < |slots| ::
              slots[i] == Window(window.start + i * duration, window.start + (i + 1) * duration)
              && Inside(slots[i], window)
    ensures window.start + (|slots| + 1) * duration > window.end
  {
    slots := [];
    var cursor := window.start;
    while cursor + duration <= window.end
      invariant cursor == window.start + |slots| * duration
      invariant forall i | 0 <= i < |slots| ::
                  slots[i] == Window(window.start + i * duration, window.start + (i + 1) * duration)
                  && Inside(slots[i], window)
      decreases window.end - cursor
    {
      slots := slots + [Window(cursor, cursor + duration)];
      cursor := cursor + duration;
    }
  }
}
