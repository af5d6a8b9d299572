/** The skyline of a packed target, as a value: its heights, and what placing a box does to it. */
module Skyline {

  /** A corner of the skyline: from column x on, up to the next corner, the height is y. */
  datatype Step = Step(x: int, y: int)

  type Sky = seq<Step>

  /** Corners strictly increase from column 0 to the sentinel at column width. */
  ghost predicate SkyOk(s: Sky, width: int) {
    && |s| >= 2
    && s[0].x == 0 && s[|s| - 1].x == width
    && (forall i, j :: 0 <= i < j < |s| ==> s[i].x < s[j].x)
    && (forall i :: 0 <= i < |s| ==> s[i].y >= 0)
  }

  /** The step that covers a column. */
  function StepAt(s: Sky, col: int): (i: nat)
    requires |s| > 0 && s[0].x <= col
    ensures i < |s| && s[i].x <= col && (i + 1 < |s| ==> col < s[i + 1].x)
  {
    if |s| == 1 || col < s[1].x then 0 else 1 + StepAt(s[1..], col)
  }

  function Height(s: Sky, col: int): int
    requires |s| > 0 && s[0].x <= col
  {
    s[StepAt(s, col)].y
  }

  lemma HeightOfStep(s: Sky, width: int, i: nat, col: int)
    requires SkyOk(s, width) && i + 1 < |s| && s[i].x <= col < s[i + 1].x
    ensures Height(s, col) == s[i].y
  {
    var k := StepAt(s, col);
    if k < i {
      assert false;
    } else if i < k {
      assert false;
    }
  }

  // ----------------------------------------------------------- measuring a span

  /** The lowest position of a box over a span, and the area it would waste below. */
  datatype Span = Span(y: int, waste: int)

  /** The scan over the nodes under the columns from x0 on, from node i. */
  function Scan(s: Sky, i: nat, x0: int, width: int, minY: int, waste: int, visited: int): Span
    requires |s| > 0 && x0 + width <= s[|s| - 1].x
    decreases |s| - i
  {
    if i + 1 >= |s| || s[i].x >= x0 + width then Span(minY, waste)
    else if s[i].y > minY then
      var seen := s[i + 1].x - if s[i].x < x0 then x0 else s[i].x;
      Scan(s, i + 1, x0, width, s[i].y, waste + visited * (s[i].y - minY), visited + seen)
    else
      var full := s[i + 1].x - s[i].x;
      var under := if full + visited > width then width - visited else full;
      Scan(s, i + 1, x0, width, minY, waste + under * (minY - s[i].y), visited + under)
  }

  lemma ScanStep(s: Sky, k: nat, x0: int, width: int, minY: int, waste: int, visited: int)
    requires k + 1 < |s| && x0 + width <= s[|s| - 1].x && s[k].x < x0 + width
    ensures Scan(s, k, x0, width, minY, waste, visited) ==
      if s[k].y > minY then
        Scan(s, k + 1, x0, width, s[k].y, waste + visited * (s[k].y - minY),
             visited + (s[k + 1].x - if s[k].x < x0 then x0 else s[k].x))
      else
        var full := s[k + 1].x - s[k].x;
        var under := if full + visited > width then width - visited else full;
        Scan(s, k + 1, x0, width, minY, waste + under * (minY - s[k].y), visited + under)
  {}

  lemma ScanEnd(s: Sky, k: nat, x0: int, width: int, minY: int, waste: int, visited: int)
    requires |s| > 0 && x0 + width <= s[|s| - 1].x && k < |s| && s[k].x >= x0 + width
    ensures Scan(s, k, x0, width, minY, waste, visited) == Span(minY, waste)
  {}

  function Measure(s: Sky, i: nat, x0: int, width: int): Span
    requires |s| > 0 && x0 + width <= s[|s| - 1].x
  {
    Scan(s, i, x0, width, 0, 0, 0)
  }

  lemma MeasureIsScan(s: Sky, i: nat, x0: int, width: int)
    requires |s| > 0 && x0 + width <= s[|s| - 1].x
    ensures Measure(s, i, x0, width) == Scan(s, i, x0, width, 0, 0, 0)
  {}

  /** y is at least the height of every column of the span, and 0 or the height of one. */
  ghost predicate IsMaxHeight(s: Sky, x0: int, x1: int, y: int)
    requires |s| > 0 && s[0].x <= x0
  {
    && (forall c :: x0 <= c < x1 ==> Height(s, c) <= y)
    && (y == 0 || exists c :: x0 <= c < x1 && Height(s, c) == y)
  }

  ghost predicate SpanOf(s: Sky, width: int, i: nat, x0: int, w: int) {
    && SkyOk(s, width) && i + 1 < |s|
    && s[i].x <= x0 < s[i + 1].x
    && w > 0 && x0 + w <= width
  }

  function Max(a: int, b: int): int {
    if a < b then b else a
  }

  function Min(a: int, b: int): int {
    if a < b then a else b
  }

  lemma HeightUntilNext(s: Sky, width: int, k: nat, from: int, till: int)
    requires SkyOk(s, width) && k + 1 < |s| && s[k].x <= from && till <= s[k + 1].x
    ensures forall c :: from <= c < till ==> s[0].x <= c && Height(s, c) == s[k].y
  {
    forall c | from <= c < till
      ensures s[0].x <= c && Height(s, c) == s[k].y
    {
      HeightOfStep(s, width, k, c);
    }
  }

  /** What the scan has still to cover when it stands at node k. */
  lemma ScanGeometry(s: Sky, width: int, i: nat, k: nat, x0: int, w: int)
    requires SpanOf(s, width, i, x0, w) && i <= k && k + 1 < |s|
    ensures 0 == s[0].x <= x0 && s[k].x < s[k + 1].x && x0 < s[k + 1].x
    ensures s[k].y >= 0 && (k > i ==> x0 < s[k].x)
  {
    assert k > i ==> s[i + 1].x <= s[k].x;
  }

  lemma MaxExtends(s: Sky, x0: int, from: int, till: int, y: int, h: int)
    requires |s| > 0 && s[0].x <= x0 <= from < till
    requires IsMaxHeight(s, x0, from, y) && forall c :: from <= c < till ==> Height(s, c) == h
    ensures IsMaxHeight(s, x0, till, Max(y, h))
  {
    assert Height(s, from) == h;
  }

  lemma {:induction false} ScanIsMax(s: Sky, width: int, i: nat, k: nat, x0: int, w: int, minY: int, waste: int,
                                     visited: int)
    requires SpanOf(s, width, i, x0, w) && i <= k < |s| && minY >= 0
    requires IsMaxHeight(s, x0, Min(Max(x0, s[k].x), x0 + w), minY)
    ensures IsMaxHeight(s, x0, x0 + w, Scan(s, k, x0, w, minY, waste, visited).y)
    ensures Scan(s, k, x0, w, minY, waste, visited).y >= minY
    decreases |s| - k
  {
    hide SkyOk, Height, IsMaxHeight;
    if k + 1 >= |s| || s[k].x >= x0 + w {
      SentinelAtWidth(s, width);
    } else {
      ScanGeometry(s, width, i, k, x0, w);
      var from, till := Max(x0, s[k].x), Min(s[k + 1].x, x0 + w);
      HeightUntilNext(s, width, k, from, till);
      MaxExtends(s, x0, from, till, minY, s[k].y);
      if s[k].y > minY {
        var seen := s[k + 1].x - if s[k].x < x0 then x0 else s[k].x;
        ScanIsMax(s, width, i, k + 1, x0, w, s[k].y, waste + visited * (s[k].y - minY), visited + seen);
      } else {
        var full := s[k + 1].x - s[k].x;
        var under := if full + visited > w then w - visited else full;
        ScanIsMax(s, width, i, k + 1, x0, w, minY, waste + under * (minY - s[k].y), visited + under);
      }
    }
  }

  lemma SentinelAtWidth(s: Sky, width: int)
    requires SkyOk(s, width)
    ensures |s| >= 2 && s[|s| - 1].x == width && s[0].x == 0
  {}

  /** The measured position is exactly the greatest height over the span. */
  lemma MeasureIsMax(s: Sky, width: int, i: nat, x0: int, w: int)
    requires SpanOf(s, width, i, x0, w)
    ensures IsMaxHeight(s, x0, x0 + w, Measure(s, i, x0, w).y) && Measure(s, i, x0, w).y >= 0
  {
    ScanIsMax(s, width, i, i, x0, w, 0, 0, 0);
    HeightOfStep(s, width, i, x0);
  }

  /** The area between height y and the skyline over a range of columns. */
  function AreaBelow(s: Sky, x0: int, x1: int, y: int): int
    requires |s| > 0 && s[0].x <= x0
    decreases x1 - x0
  {
    if x1 <= x0 then 0 else AreaBelow(s, x0, x1 - 1, y) + y - Height(s, x1 - 1)
  }

  lemma {:induction false} AreaRaise(s: Sky, x0: int, x1: int, y: int, z: int)
    requires |s| > 0 && s[0].x <= x0 <= x1
    ensures AreaBelow(s, x0, x1, z) == AreaBelow(s, x0, x1, y) + (x1 - x0) * (z - y)
    decreases x1 - x0
  {
    if x1 > x0 {
      AreaRaise(s, x0, x1 - 1, y, z);
      assert (x1 - x0) * (z - y) == (x1 - 1 - x0) * (z - y) + (z - y);
    }
  }

  lemma {:induction false} AreaOfFlat(s: Sky, x0: int, from: int, till: int, y: int, h: int)
    requires |s| > 0 && s[0].x <= x0 <= from <= till
    requires forall c :: from <= c < till ==> Height(s, c) == h
    ensures AreaBelow(s, x0, till, y) == AreaBelow(s, x0, from, y) + (till - from) * (y - h)
    decreases till - from
  {
    hide Height;
    if till > from {
      AreaOfFlat(s, x0, from, till - 1, y, h);
      assert (till - from) * (y - h) == (till - 1 - from) * (y - h) + (y - h);
    }
  }

  lemma {:induction false} ScanIsArea(s: Sky, width: int, i: nat, k: nat, x0: int, w: int, minY: int, waste: int,
                                      visited: int)
    requires SpanOf(s, width, i, x0, w) && i <= k < |s| && minY >= 0 && s[0].x <= x0
    requires k == i ==> minY == 0 && (s[i].x == x0 || s[i].y > 0)
    requires var reached := Max(x0, s[k].x);
             && (reached <= x0 + w ==> visited == reached - x0)
             && waste == AreaBelow(s, x0, Min(reached, x0 + w), minY)
    ensures var m := Scan(s, k, x0, w, minY, waste, visited);
            m.waste == AreaBelow(s, x0, x0 + w, m.y)
    decreases |s| - k
  {
    hide SkyOk, Height, AreaBelow;
    if k + 1 >= |s| || s[k].x >= x0 + w {
      SentinelAtWidth(s, width);
    } else {
      ScanGeometry(s, width, i, k, x0, w);
      var from, till := Max(x0, s[k].x), Min(s[k + 1].x, x0 + w);
      HeightUntilNext(s, width, k, from, till);
      if s[k].y > minY {
        AreaRaise(s, x0, from, minY, s[k].y);
        AreaOfFlat(s, x0, from, till, s[k].y, s[k].y);
        assert (till - from) * (s[k].y - s[k].y) == 0;
        ScanIsArea(s, width, i, k + 1, x0, w, s[k].y, waste + visited * (s[k].y - minY), visited + (s[k + 1].x - from));
      } else {
        var full := s[k + 1].x - s[k].x;
        var under := if full + visited > w then w - visited else full;
        assert under == till - from;
        AreaOfFlat(s, x0, from, till, minY, s[k].y);
        ScanIsArea(s, width, i, k + 1, x0, w, minY, waste + under * (minY - s[k].y), visited + under);
      }
    }
  }

  lemma MeasureIsArea(s: Sky, width: int, i: nat, x0: int, w: int)
    requires SpanOf(s, width, i, x0, w) && (s[i].x == x0 || s[i].y > 0)
    ensures Measure(s, i, x0, w).waste == AreaBelow(s, x0, x0 + w, Measure(s, i, x0, w).y)
  {
    ScanIsArea(s, width, i, i, x0, w, 0, 0, 0);
  }

  /** Only the step before the sentinel may still lie on the floor. */
  ghost predicate FloorLast(s: Sky) {
    forall i :: 0 <= i < |s| - 2 ==> s[i].y > 0
  }

  /** A span on the floor of the last step is at height 0 and wastes nothing. */
  lemma FloorSpan(s: Sky, width: int, i: nat, x0: int, w: int)
    requires SpanOf(s, width, i, x0, w) && i + 2 == |s| && s[i].y == 0
    ensures Measure(s, i, x0, w) == Span(0, 0)
    ensures forall c :: x0 <= c < x0 + w ==> Height(s, c) == 0
  {
    HeightUntilNext(s, width, i, x0, x0 + w);
    ScanStep(s, i, x0, w, 0, 0, 0);
    var full := s[i + 1].x - s[i].x;
    var under := if full > w then w else full;
    assert under * (0 - s[i].y) == 0;
    ScanEnd(s, i + 1, x0, w, 0, 0, under);
  }

  /** While only the last step can lie on the floor, the reported waste of every span is exactly
      the area between the reported height and the skyline. */
  lemma WasteIsArea(s: Sky, width: int, i: nat, x0: int, w: int)
    requires SpanOf(s, width, i, x0, w) && FloorLast(s)
    ensures Measure(s, i, x0, w).waste == AreaBelow(s, x0, x0 + w, Measure(s, i, x0, w).y)
  {
    hide Measure, Height;
    if i + 2 == |s| && s[i].y == 0 {
      FloorSpan(s, width, i, x0, w);
      AreaOfFlat(s, x0, x0, x0 + w, 0, 0);
    } else {
      MeasureIsArea(s, width, i, x0, w);
    }
  }
}
