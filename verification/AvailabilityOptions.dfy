/** The grid of options over free windows: starts on multiples of one step, ends on multiples
    of another past the shortest length, no longer than the longest.  Exactly these pairs are
    offered, in increasing order. */
module AvailabilityOptions {
  import opened TimeWindows

  // ---------------------------------------------------------------- the grid

  /** Durations and steps in minutes. */
  datatype Grid = Grid(min: int, max: int, startStep: int, endStep: int)

  predicate Stepping(g: Grid) {
    g.startStep > 0 && g.endStep > 0
  }

  predicate Multiple(x: int, step: int)
    requires step > 0
  {
    x % step == 0
  }

  /** A start on a multiple of the start step, an end whole end steps after the shortest end. */
  predicate OnGrid(g: Grid, start: int, end: int)
    requires Stepping(g)
  {
    Multiple(start, g.startStep) && Multiple(end - (start + g.min), g.endStep) && g.min <= end - start <= g.max
  }

  predicate Offers(windows: seq<Window>, g: Grid, start: int, end: int)
    requires Stepping(g)
  {
    OnGrid(g, start, end) && exists w :: w in windows && w.start <= start && end <= w.end
  }

  datatype StartOption = StartOption(start: int, ends: seq<int>)

  ghost predicate Listed(options: seq<StartOption>, start: int, end: int) {
    exists o :: o in options && o.start == start && end in o.ends
  }

  lemma ListedConcat(a: seq<StartOption>, b: seq<StartOption>, start: int, end: int)
    ensures Listed(a + b, start, end) <==> Listed(a, start, end) || Listed(b, start, end)
  {
  }

  /** `Math.ceil(x / step) * step`. */
  function CeilTo(x: int, step: int): (r: int)
    requires step > 0
    ensures x <= r < x + step && Multiple(r, step)
  {
    CeilDivides(x, step);
    x + (-x) % step
  }

  lemma CeilDivides(x: int, step: int)
    requires step > 0
    ensures (x + (-x) % step) % step == 0
  {
    MultipleOf(-((-x) / step), step);
    assert x + (-x) % step == -((-x) / step) * step;
  }

  lemma Smaller(d: int, step: int)
    requires step > 0 && -step < d * step < step
    ensures d == 0
  {
    assert d >= 1 ==> d * step >= step;
    assert d <= -1 ==> d * step <= -step;
  }

  lemma MultipleOf(q: int, step: int)
    requires step > 0
    ensures q * step % step == 0
  {
    var d := q * step / step;
    assert (q - d) * step == q * step % step;
    Smaller(q - d, step);
  }

  /** Two multiples of a step are a whole step apart. */
  lemma NextMultiple(a: int, b: int, step: int)
    requires step > 0 && Multiple(a, step) && Multiple(b, step) && a <= b < a + step
    ensures a == b
  {
    var p, q := a / step, b / step;
    assert a == p * step && b == q * step;
    assert (q - p) * step == b - a;
    Smaller(q - p, step);
  }

  lemma StepStaysMultiple(a: int, step: int)
    requires step > 0 && Multiple(a, step)
    ensures Multiple(a + step, step)
  {
    var p := a / step;
    assert a == p * step;
    MultipleOf(p + 1, step);
    assert (p + 1) * step == a + step;
  }

  predicate Rising(s: seq<int>) {
    forall i, j | 0 <= i < j < |s| :: s[i] < s[j]
  }

  /** The list holds exactly the steps after `first` that lie before `bound`. */
  ghost predicate StepsBefore(ends: seq<int>, first: int, step: int, bound: int)
    requires step > 0
  {
    Rising(ends) && forall x :: x in ends <==> first <= x < bound && Multiple(x - first, step)
  }

  lemma OneMoreStep(ends: seq<int>, first: int, step: int, end: int)
    requires step > 0 && first <= end && Multiple(end - first, step) && StepsBefore(ends, first, step, end)
    ensures StepsBefore(ends + [end], first, step, end + step) && Multiple(end + step - first, step)
  {
    StepStaysMultiple(end - first, step);
    assert end - first + step == end + step - first;
    forall x ensures x in ends + [end] <==> first <= x < end + step && Multiple(x - first, step) {
      if end <= x < end + step && Multiple(x - first, step) {
        NextMultiple(end - first, x - first, step);
      }
    }
    assert forall i | 0 <= i < |ends| :: ends[i] in ends;
  }

  /** Past the limit there is nothing more to list. */
  lemma NoStepUpTo(ends: seq<int>, first: int, step: int, end: int, limit: int)
    requires step > 0 && first <= end && Multiple(end - first, step) && StepsBefore(ends, first, step, end)
    requires limit < end && (end == first || end - step <= limit)
    ensures StepsBefore(ends, first, step, limit + 1)
  {
    forall x | limit < x < end ensures x !in ends {
      if x in ends {
        BackOneStep(end - first, step);
        NextMultiple(end - step - first, x - first, step);
      }
    }
  }

  lemma BackOneStep(a: int, step: int)
    requires step > 0 && Multiple(a, step)
    ensures Multiple(a - step, step)
  {
    var p := a / step;
    assert a == p * step;
    MultipleOf(p - 1, step);
    assert (p - 1) * step == a - step;
  }

  /** The ends offered for one start. */
  method EndTimes(g: Grid, start: int, latestEnd: int) returns (ends: seq<int>)
    requires Stepping(g)
    ensures StepsBefore(ends, start + g.min, g.endStep, latestEnd + 1)
  {
    ends := [];
    var end := start + g.min;
    while end <= latestEnd
      invariant start + g.min <= end && Multiple(end - (start + g.min), g.endStep)
      invariant end == start + g.min || end - g.endStep <= latestEnd
      invariant StepsBefore(ends, start + g.min, g.endStep, end)
      decreases latestEnd - end
    {
      OneMoreStep(ends, start + g.min, g.endStep, end);
      ends := ends + [end];
      end := end + g.endStep;
    }
    NoStepUpTo(ends, start + g.min, g.endStep, end, latestEnd);
  }

  /** Starts in order, each with its ends. */
  predicate WellListed(options: seq<StartOption>) {
    && (forall i, j | 0 <= i < j < |options| :: options[i].start < options[j].start)
    && forall o | o in options :: o.ends != [] && Rising(o.ends)
  }

  /** Every pair of the window with a start before `bound`, and no other. */
  ghost predicate ListedBefore(options: seq<StartOption>, g: Grid, window: Window, bound: int)
    requires Stepping(g)
  {
    && WellListed(options)
    && (forall o | o in options :: o.start < bound)
    && forall a, b :: Listed(options, a, b) <==> a < bound && Offers([window], g, a, b)
  }

  function OneStart(start: int, ends: seq<int>): seq<StartOption> {
    if |ends| > 0 then [StartOption(start, ends)] else []
  }

  lemma OneMoreStart(options: seq<StartOption>, g: Grid, window: Window, start: int, ends: seq<int>)
    requires Stepping(g) && Multiple(start, g.startStep) && window.start <= start
    requires ListedBefore(options, g, window, start)
    requires StepsBefore(ends, start + g.min, g.endStep, Min(start + g.max, window.end) + 1)
    ensures ListedBefore(options + OneStart(start, ends), g, window, start + g.startStep)
    ensures Multiple(start + g.startStep, g.startStep)
  {
    StepStaysMultiple(start, g.startStep);
    var more := OneStart(start, ends);
    forall a, b
      ensures Listed(options + more, a, b) <==> a < start + g.startStep && Offers([window], g, a, b)
    {
      ListedConcat(options, more, a, b);
      assert Listed(more, a, b) <==> a == start && b in ends by {
        assert |ends| > 0 ==> StartOption(start, ends) in more;
      }
      NewPair(g, window, start, ends, a, b);
    }
  }

  lemma NewPair(g: Grid, window: Window, start: int, ends: seq<int>, a: int, b: int)
    requires Stepping(g) && Multiple(start, g.startStep) && window.start <= start
    requires StepsBefore(ends, start + g.min, g.endStep, Min(start + g.max, window.end) + 1)
    ensures start <= a < start + g.startStep ==> (Offers([window], g, a, b) <==> a == start && b in ends)
  {
    if start <= a < start + g.startStep && Multiple(a, g.startStep) {
      NextMultiple(start, a, g.startStep);
    }
    assert window in [window];
  }

  lemma NoStartFits(options: seq<StartOption>, g: Grid, window: Window, start: int)
    requires Stepping(g) && start + g.min > window.end && ListedBefore(options, g, window, start)
    ensures forall a, b :: Listed(options, a, b) <==> Offers([window], g, a, b)
  {
    forall a, b ensures Listed(options, a, b) <==> Offers([window], g, a, b) {
      assert a >= start ==> !Offers([window], g, a, b);
    }
  }

  lemma NoStartBefore(g: Grid, window: Window)
    requires Stepping(g)
    ensures ListedBefore([], g, window, CeilTo(window.start, g.startStep))
  {
    var first := CeilTo(window.start, g.startStep);
    forall a, b | a < first ensures !Offers([window], g, a, b) {
      if window.start <= a && Multiple(a, g.startStep) {
        BackOneStep(first, g.startStep);
        NextMultiple(first - g.startStep, a, g.startStep);
      }
    }
  }

  /** What one window contributes. */
  method WindowOptions(g: Grid, window: Window) returns (options: seq<StartOption>)
    requires Stepping(g)
    ensures WellListed(options)
    ensures forall start, end :: Listed(options, start, end) <==> Offers([window], g, start, end)
  {
    options := [];
    var start := CeilTo(window.start, g.startStep);
    NoStartBefore(g, window);
    while start + g.min <= window.end
      invariant Multiple(start, g.startStep) && window.start <= start
      invariant ListedBefore(options, g, window, start)
      decreases window.end - start - g.min
    {
      var latestEnd := Min(start + g.max, window.end);
      var ends := EndTimes(g, start, latestEnd);
      OneMoreStart(options, g, window, start, ends);
      if |ends| > 0 {
        options := options + [StartOption(start, ends)];
      }
      start := start + g.startStep;
    }
    NoStartFits(options, g, window, start);
  }

  lemma OffersConcat(v: seq<Window>, w: seq<Window>, g: Grid, start: int, end: int)
    requires Stepping(g)
    ensures Offers(v + w, g, start, end) <==> Offers(v, g, start, end) || Offers(w, g, start, end)
  {
  }

  /** Lists exactly the grid pairs that lie inside a window. */
  method BuildScheduleAvailabilityOptions(g: Grid, windows: seq<Window>) returns (options: seq<StartOption>)
    requires Stepping(g)
    ensures forall start, end :: Listed(options, start, end) <==> Offers(windows, g, start, end)
    ensures forall o | o in options :: o.ends != [] && Rising(o.ends)
  {
    options := [];
    for i := 0 to |windows|
      invariant forall o | o in options :: o.ends != [] && Rising(o.ends)
      invariant forall a, b :: Listed(options, a, b) <==> Offers(windows[..i], g, a, b)
    {
      var more := WindowOptions(g, windows[i]);
      forall a, b ensures Listed(options + more, a, b) <==> Offers(windows[..i + 1], g, a, b) {
        ListedConcat(options, more, a, b);
        assert windows[..i + 1] == windows[..i] + [windows[i]];
        OffersConcat(windows[..i], [windows[i]], g, a, b);
      }
      options := options + more;
    }
    assert windows[..|windows|] == windows;
  }
}
