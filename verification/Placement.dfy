/** Placing boxes on a skyline, and why placed boxes never overlap. */
module Placement {
  import opened Skyline

  datatype Box = Box(x: int, y: int, w: int, h: int)

  // ------------------------------------------------------------ the new skyline

  /** The first node the placement may free: the one covering column x stays when it
      begins before x. */
  function FirstCut(s: Sky, i: nat, x: int): nat
    requires i < |s|
  {
    if s[i].x < x then i + 1 else i
  }

  /** The first node from j on that is not covered by columns before end. */
  function FirstKept(s: Sky, j: nat, end: int): (k: nat)
    requires j < |s|
    ensures j <= k < |s|
    ensures k > j ==> s[k].x <= end
    ensures k + 1 < |s| ==> end < s[k + 1].x
    decreases |s| - j
  {
    if j + 1 < |s| && s[j + 1].x <= end then FirstKept(s, j + 1, end) else j
  }

  /** A node at x with height top goes in, covered nodes go out, and the next one is cut
      back to the end of the box. */
  function Insert(s: Sky, i: nat, x: int, top: int, end: int): Sky
    requires i + 1 < |s|
  {
    var c := FirstCut(s, i, x);
    var k := FirstKept(s, c, end);
    s[..c] + [Step(x, top)] + [Step(Max(s[k].x, end), s[k].y)] + s[k + 1..]
  }

  ghost predicate Placeable(s: Sky, width: int, i: nat, x: int, top: int, end: int) {
    && SkyOk(s, width) && i + 1 < |s|
    && s[i].x <= x < s[i + 1].x
    && x < end <= width
    && top >= 0
  }

  /** Where the raised part really ends. */
  function RaisedTo(s: Sky, i: nat, x: int, end: int): int
    requires i + 1 < |s|
  {
    Max(s[FirstKept(s, FirstCut(s, i, x), end)].x, end)
  }

  ghost predicate StepsUp(t: Sky, j: nat)
    requires j + 1 < |t|
  {
    t[j].x < t[j + 1].x
  }

  lemma {:induction false} AdjacentIsSorted(t: Sky, i: nat, j: nat)
    requires forall m :: 0 <= m < |t| - 1 ==> StepsUp(t, m)
    requires i < j < |t|
    ensures t[i].x < t[j].x
  {
    assert StepsUp(t, j - 1);
    if i < j - 1 {
      AdjacentIsSorted(t, i, j - 1);
    }
  }

  lemma InsertStepUp(s: Sky, width: int, i: nat, x: int, top: int, end: int, j: nat)
    requires Placeable(s, width, i, x, top, end) && j + 1 < |Insert(s, i, x, top, end)|
    ensures StepsUp(Insert(s, i, x, top, end), j) && Insert(s, i, x, top, end)[j].y >= 0
  {
    InsertSteps(s, i, x, top, end, j);
    InsertSteps(s, i, x, top, end, j + 1);
  }

  lemma InsertEnds(s: Sky, width: int, i: nat, x: int, top: int, end: int)
    requires Placeable(s, width, i, x, top, end)
    ensures var t := Insert(s, i, x, top, end);
            |t| >= 2 && t[0].x == 0 && t[|t| - 1].x == width && t[|t| - 1].y >= 0
  {
    hide SkyOk;
    SentinelAtWidth(s, width);
    Ascending(s, width, |s| - 1, |s| - 1);
    InsertSteps(s, i, x, top, end, 0);
    InsertSteps(s, i, x, top, end, |Insert(s, i, x, top, end)| - 1);
  }

  lemma InsertKeepsSky(s: Sky, width: int, i: nat, x: int, top: int, end: int)
    requires Placeable(s, width, i, x, top, end)
    ensures SkyOk(Insert(s, i, x, top, end), width)
    ensures |Insert(s, i, x, top, end)| >= 2 && Insert(s, i, x, top, end)[0].x == 0
  {
    hide Insert;
    var t := Insert(s, i, x, top, end);
    InsertEnds(s, width, i, x, top, end);
    forall j | 0 <= j < |t| - 1
      ensures StepsUp(t, j) && t[j].y >= 0
    {
      InsertStepUp(s, width, i, x, top, end, j);
    }
    forall a, b | 0 <= a < b < |t|
      ensures t[a].x < t[b].x
    {
      AdjacentIsSorted(t, a, b);
    }
  }

  lemma InsertSteps(s: Sky, i: nat, x: int, top: int, end: int, j: nat)
    requires i + 1 < |s| && j < |Insert(s, i, x, top, end)|
    ensures var c := FirstCut(s, i, x);
            var k := FirstKept(s, c, end);
            Insert(s, i, x, top, end)[j] ==
              if j < c then s[j]
              else if j == c then Step(x, top)
              else if j == c + 1 then Step(Max(s[k].x, end), s[k].y)
              else s[j + k - c - 1]
  {}

  lemma Ascending(s: Sky, width: int, a: nat, b: nat)
    requires SkyOk(s, width) && a <= b < |s|
    ensures s[a].x <= s[b].x && (a < b ==> s[a].x < s[b].x)
    ensures 0 == s[0].x <= s[a].x <= s[|s| - 1].x == width && s[a].y >= 0
  {}

  /** Height by the node of the new list that covers the column. */
  lemma InsertHeightAt(s: Sky, width: int, i: nat, x: int, top: int, end: int, m: nat, col: int)
    requires Placeable(s, width, i, x, top, end) && 0 <= col < width
    requires var t := Insert(s, i, x, top, end); m + 1 < |t| && t[m].x <= col < t[m + 1].x
    ensures Insert(s, i, x, top, end)[m].y == if x <= col < RaisedTo(s, i, x, end) then top else Height(s, col)
  {
    hide SkyOk;
    InsertKeepsSky(s, width, i, x, top, end);
    var c := FirstCut(s, i, x);
    var k := FirstKept(s, c, end);
    var t := Insert(s, i, x, top, end);
    SentinelAtWidth(s, width);
    InsertSteps(s, i, x, top, end, m);
    InsertSteps(s, i, x, top, end, m + 1);
    InsertSteps(s, i, x, top, end, c);
    InsertSteps(s, i, x, top, end, c + 1);
    if m < c {
      Ascending(t, width, m + 1, c);
      HeightOfStep(s, width, m, col);
    } else if m > c {
      Ascending(t, width, c + 1, m);
      HeightOfStep(s, width, m + k - c - 1, col);
    }
  }

  /** The new skyline is the box's top from x up to where the raised part ends, and the old
      skyline everywhere else. */
  lemma InsertHeights(s: Sky, width: int, i: nat, x: int, top: int, end: int, col: int)
    requires Placeable(s, width, i, x, top, end) && 0 <= col < width
    ensures SkyOk(Insert(s, i, x, top, end), width)
    ensures Height(Insert(s, i, x, top, end), col) == if x <= col < RaisedTo(s, i, x, end) then top else Height(s, col)
  {
    InsertKeepsSky(s, width, i, x, top, end);
    var m := StepAt(Insert(s, i, x, top, end), col);
    hide SkyOk, Insert, Height, FirstKept, FirstCut;
    InsertHeightAt(s, width, i, x, top, end, m, col);
    HeightOfStep(Insert(s, i, x, top, end), width, m, col);
  }

  /** The raised part ends at the box's own end except when the box sits strictly inside
      one step: then the rest of that step is raised with it and becomes unusable. */
  lemma RaisesExactlyIff(s: Sky, width: int, i: nat, x: int, top: int, end: int)
    requires Placeable(s, width, i, x, top, end)
    ensures RaisedTo(s, i, x, end) == end <==> s[i].x == x || s[i + 1].x <= end
    ensures s[i].x < x && end < s[i + 1].x ==> RaisedTo(s, i, x, end) == s[i + 1].x
  {}

  lemma InsertedFrom(s: Sky, width: int, i: nat, x: int, top: int, end: int, j: nat)
    requires Placeable(s, width, i, x, top, end) && j < |Insert(s, i, x, top, end)|
    ensures var p, e := Insert(s, i, x, top, end)[j], RaisedTo(s, i, x, end);
            && 0 == s[0].x <= e
            && ((p in s && (p.x < x || e < p.x)) || p == Step(x, top) || p == Step(e, s[StepAt(s, e)].y))
  {
    hide Insert;
    var c := FirstCut(s, i, x);
    var k := FirstKept(s, c, end);
    InsertSteps(s, i, x, top, end, j);
    InsertSize(s, i, x, top, end);
    CoveringStep(s, width, k, RaisedTo(s, i, x, end));
    if j < c {
      Ascending(s, width, j, i);
      assert s[j] in s && s[j].x < x;
    } else if c + 1 < j {
      Ascending(s, width, k + 1, j + k - c - 1);
      assert s[j + k - c - 1] in s;
    }
  }

  lemma CoveringStep(s: Sky, width: int, k: nat, col: int)
    requires SkyOk(s, width) && k < |s| && s[k].x <= col && (k + 1 < |s| ==> col < s[k + 1].x)
    ensures 0 == s[0].x <= col && StepAt(s, col) == k
  {
    Ascending(s, width, 0, k);
    var j := StepAt(s, col);
    if j < k {
      Ascending(s, width, j + 1, k);
    } else if k < j {
      Ascending(s, width, k + 1, j);
    }
  }

  lemma KeptBy(s: Sky, width: int, i: nat, x: int, top: int, end: int, m: nat)
    requires Placeable(s, width, i, x, top, end) && m < |s| && (s[m].x < x || RaisedTo(s, i, x, end) < s[m].x)
    ensures s[m] in Insert(s, i, x, top, end)
  {
    hide Insert;
    var c := FirstCut(s, i, x);
    var k := FirstKept(s, c, end);
    if s[m].x < x {
      assert m < c;
      InsertSize(s, i, x, top, end);
      InsertSteps(s, i, x, top, end, m);
    } else {
      assert k < m;
      InsertSize(s, i, x, top, end);
      InsertSteps(s, i, x, top, end, m - k + c + 1);
    }
  }

  lemma InsertSize(s: Sky, i: nat, x: int, top: int, end: int)
    requires i + 1 < |s|
    ensures var c := FirstCut(s, i, x);
            |Insert(s, i, x, top, end)| == |s| + c + 1 - FirstKept(s, c, end) && c + 1 < |Insert(s, i, x, top, end)|
  {}

  /** Exactly which nodes the new list has: the old ones outside the raised part, one at each of
      its ends, and none inside it. */
  lemma InsertNodes(s: Sky, width: int, i: nat, x: int, top: int, end: int, p: Step)
    requires Placeable(s, width, i, x, top, end)
    ensures var t, e := Insert(s, i, x, top, end), RaisedTo(s, i, x, end);
            && 0 == s[0].x <= e
            && (p in t <==> (p in s && (p.x < x || e < p.x)) || p == Step(x, top) || p == Step(e, s[StepAt(s, e)].y))
  {
    hide Insert;
    var t, e, c := Insert(s, i, x, top, end), RaisedTo(s, i, x, end), FirstCut(s, i, x);
    var k := FirstKept(s, c, end);
    CoveringStep(s, width, k, e);
    InsertSize(s, i, x, top, end);
    InsertSteps(s, i, x, top, end, c);
    InsertSteps(s, i, x, top, end, c + 1);
    if p in t {
      var j :| 0 <= j < |t| && t[j] == p;
      InsertedFrom(s, width, i, x, top, end, j);
    }
    if p in s && (p.x < x || e < p.x) {
      var m :| 0 <= m < |s| && s[m] == p;
      KeptBy(s, width, i, x, top, end, m);
    }
  }

  // --------------------------------------------------------------------- safety

  predicate Inside(b: Box, width: int, height: int) {
    0 <= b.x && b.x + b.w <= width && 0 <= b.y && b.y + b.h <= height && b.w > 0 && b.h > 0
  }

  predicate Disjoint(a: Box, b: Box) {
    a.x + a.w <= b.x || b.x + b.w <= a.x || a.y + a.h <= b.y || b.y + b.h <= a.y
  }

  /** The skyline covers the box. */
  ghost predicate Under(s: Sky, b: Box)
    requires |s| > 0 && s[0].x <= b.x
  {
    forall c :: b.x <= c < b.x + b.w ==> b.y + b.h <= Height(s, c)
  }

  /** All placed boxes lie inside the target, below the skyline, and no two overlap. */
  ghost predicate Safe(placed: seq<Box>, s: Sky, width: int, height: int) {
    && SkyOk(s, width)
    && (forall k :: 0 <= k < |placed| ==> Inside(placed[k], width, height) && Under(s, placed[k]))
    && (forall k, l :: 0 <= k < l < |placed| ==> Disjoint(placed[k], placed[l]))
  }

  /** Whatever is raised was at or below the bottom of the box before. */
  lemma RaisedWasBelow(s: Sky, width: int, i: nat, b: Box, c: int)
    requires Placeable(s, width, i, b.x, b.y + b.h, b.x + b.w)
    requires forall c :: b.x <= c < b.x + b.w ==> Height(s, c) <= b.y
    requires b.x <= c < RaisedTo(s, i, b.x, b.x + b.w)
    ensures Height(s, c) <= b.y
  {
    if b.x + b.w <= c {
      RaisesExactlyIff(s, width, i, b.x, b.y + b.h, b.x + b.w);
      HeightOfStep(s, width, i, c);
      HeightOfStep(s, width, i, b.x);
    }
  }

  lemma UnderKept(s: Sky, width: int, i: nat, b: Box, q: Box)
    requires Placeable(s, width, i, b.x, b.y + b.h, b.x + b.w) && b.h >= 0
    requires forall c :: b.x <= c < b.x + b.w ==> Height(s, c) <= b.y
    requires 0 <= q.x && q.x + q.w <= width && Under(s, q)
    ensures SkyOk(Insert(s, i, b.x, b.y + b.h, b.x + b.w), width)
    ensures Under(Insert(s, i, b.x, b.y + b.h, b.x + b.w), q)
  {
    hide Insert, FirstCut, FirstKept;
    InsertKeepsSky(s, width, i, b.x, b.y + b.h, b.x + b.w);
    var t, end := Insert(s, i, b.x, b.y + b.h, b.x + b.w), b.x + b.w;
    hide SkyOk, Height, RaisedTo;
    forall c | q.x <= c < q.x + q.w
      ensures q.y + q.h <= Height(t, c)
    {
      InsertHeights(s, width, i, b.x, b.y + b.h, end, c);
      assert q.y + q.h <= Height(s, c);
      if b.x <= c < RaisedTo(s, i, b.x, end) {
        RaisedWasBelow(s, width, i, b, c);
      }
    }
  }

  lemma DisjointFromPlaced(s: Sky, width: int, b: Box, q: Box)
    requires SkyOk(s, width) && 0 <= q.x && 0 <= b.x && q.w > 0 && b.w > 0
    requires forall c :: b.x <= c < b.x + b.w ==> Height(s, c) <= b.y
    requires Under(s, q)
    ensures Disjoint(q, b)
  {
    var c := Max(b.x, q.x);
    if c < b.x + b.w && c < q.x + q.w {
      assert q.y + q.h <= Height(s, c) <= b.y;
    }
  }

  /** One placement keeps the target safe: a box put at or above the skyline overlaps
      nothing, and the new skyline covers it and everything before it. */
  lemma PlaceKeepsSafe(placed: seq<Box>, s: Sky, width: int, height: int, i: nat, b: Box)
    requires Safe(placed, s, width, height) && Inside(b, width, height)
    requires i + 1 < |s| && s[i].x <= b.x < s[i + 1].x
    requires forall c :: b.x <= c < b.x + b.w ==> Height(s, c) <= b.y
    ensures Safe(placed + [b], Insert(s, i, b.x, b.y + b.h, b.x + b.w), width, height)
  {
    hide Insert, FirstCut, FirstKept;
    InsertKeepsSky(s, width, i, b.x, b.y + b.h, b.x + b.w);
    var t, all := Insert(s, i, b.x, b.y + b.h, b.x + b.w), placed + [b];
    hide SkyOk, Height;
    NewBoxUnder(s, width, i, b);
    forall k | 0 <= k < |placed|
      ensures Under(t, all[k]) && Disjoint(all[k], b)
    {
      UnderKept(s, width, i, b, placed[k]);
      DisjointFromPlaced(s, width, b, placed[k]);
    }
  }

  lemma NewBoxUnder(s: Sky, width: int, i: nat, b: Box)
    requires Placeable(s, width, i, b.x, b.y + b.h, b.x + b.w)
    ensures SkyOk(Insert(s, i, b.x, b.y + b.h, b.x + b.w), width)
    ensures Under(Insert(s, i, b.x, b.y + b.h, b.x + b.w), b)
  {
    hide Insert, FirstCut, FirstKept;
    InsertKeepsSky(s, width, i, b.x, b.y + b.h, b.x + b.w);
    var t := Insert(s, i, b.x, b.y + b.h, b.x + b.w);
    hide SkyOk, Height;
    forall c | b.x <= c < b.x + b.w
      ensures b.y + b.h <= Height(t, c)
    {
      InsertHeights(s, width, i, b.x, b.y + b.h, b.x + b.w, c);
    }
  }
}
