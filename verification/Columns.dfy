/** The choice of a position, measured against every column of the target and not only against
    the positions that the search looks at. */
module Columns {
  import opened Skyline
  import opened Placement
  import opened BestPosition
  import opened Floor

  /** The greatest height over w columns from x on. */
  function Top(s: Sky, x: int, w: int): int
    requires |s| > 0 && s[0].x <= x
    decreases w
  {
    if w <= 0 then 0 else Max(Top(s, x, w - 1), Height(s, x + w - 1))
  }

  /** A box there lies this low, wastes this much room below it, and starts at x. */
  function ColumnScore(s: Sky, w: int, x: int): Score
    requires |s| > 0 && s[0].x <= x
  {
    Score(Top(s, x, w), AreaBelow(s, x, x + w, Top(s, x, w)), x)
  }

  predicate InTarget(width: int, w: int, x: int) {
    0 <= x && x + w <= width
  }

  lemma {:induction false} TopIsMax(s: Sky, x: int, w: int)
    requires |s| > 0 && s[0].x <= x
    ensures IsMaxHeight(s, x, x + w, Top(s, x, w)) && Top(s, x, w) >= 0
    decreases w
  {
    hide Height;
    if w > 0 {
      TopIsMax(s, x, w - 1);
      assert Height(s, x + w - 1) <= Top(s, x, w);
    }
  }

  lemma TopAtMost(s: Sky, x: int, w: int, y: int)
    requires |s| > 0 && s[0].x <= x && y >= 0
    requires forall c :: x <= c < x + w ==> Height(s, c) <= y
    ensures Top(s, x, w) <= y
  {
    hide Height, Top;
    TopIsMax(s, x, w);
  }

  lemma SpanIsColumn(s: Sky, width: int, i: nat, x: int, w: int)
    requires SpanOf(s, width, i, x, w)
    ensures 0 == s[0].x <= x && InTarget(width, w, x) && Measure(s, i, x, w).y == Top(s, x, w)
    ensures FloorLast(s) ==> ScoreAt(s, w, i, x) == ColumnScore(s, w, x)
  {
    hide Height, Top, Measure, AreaBelow, FloorLast;
    SentinelAtWidth(s, width);
    Ascending(s, width, 0, i);
    TopIsMax(s, x, w);
    MeasureIsMax(s, width, i, x, w);
    var y, z := Measure(s, i, x, w).y, Top(s, x, w);
    assert y <= z && z <= y;
    if FloorLast(s) {
      WasteIsArea(s, width, i, x, w);
    }
  }

  // ------------------------------------------------------------ moving to a corner

  /** The step of a column, and the step of the last column of a span. */
  lemma StepsOf(s: Sky, width: int, w: int, x: int) returns (i: nat, k: nat)
    requires SkyOk(s, width) && w > 0 && InTarget(width, w, x)
    ensures i <= k && k + 1 < |s| && s[i].x <= x < s[i + 1].x && s[k].x < x + w <= s[k + 1].x
    ensures i < k ==> s[i + 1].x <= s[k].x
  {
    i, k := StepAt(s, x), StepAt(s, x + w - 1);
    hide SkyOk;
    SentinelAtWidth(s, width);
    Ascending(s, width, if k < i then k + 1 else i, i);
    Ascending(s, width, if i < k then i + 1 else k, k);
  }

  /** Moving a box to the left end of its step never lifts it. */
  lemma LeftEndIsNoHigher(s: Sky, width: int, i: nat, x: int, w: int)
    requires SpanOf(s, width, i, x, w)
    ensures SpanOf(s, width, i, s[i].x, w) && 0 <= s[i].x && s[0].x == 0
    ensures Top(s, s[i].x, w) <= Top(s, x, w)
  {
    hide Height, Top;
    SentinelAtWidth(s, width);
    Ascending(s, width, 0, i);
    TopIsMax(s, x, w);
    HeightUntilNext(s, width, i, s[i].x, s[i + 1].x);
    assert Height(s, x) <= Top(s, x, w);
    TopAtMost(s, s[i].x, w, Top(s, x, w));
  }

  lemma {:induction false} AreaSplits(s: Sky, a: int, b: int, c: int, y: int)
    requires |s| > 0 && s[0].x <= a <= b <= c
    ensures AreaBelow(s, a, c, y) == AreaBelow(s, a, b, y) + AreaBelow(s, b, c, y)
    decreases c - b
  {
    if b < c {
      AreaSplits(s, a, b, c - 1, y);
    }
  }

  lemma FlatArea(s: Sky, width: int, i: nat, a: int, b: int, y: int)
    requires SkyOk(s, width) && i + 1 < |s| && s[i].x <= a <= b <= s[i + 1].x
    ensures s[0].x <= a && AreaBelow(s, a, b, y) == (b - a) * (y - s[i].y)
  {
    hide Height;
    Ascending(s, width, 0, i);
    HeightUntilNext(s, width, i, a, b);
    AreaOfFlat(s, a, a, b, y, s[i].y);
  }

  /** Between corners, moving d columns left trades columns of the last step for columns of the
      first. */
  lemma AreaMoves(s: Sky, width: int, i: nat, k: nat, x: int, w: int, d: int, y: int)
    requires SkyOk(s, width) && i < k && k + 1 < |s| && 0 <= d <= w
    requires s[i].x <= x - d && x <= s[i + 1].x && s[k].x <= x + w - d && x + w <= s[k + 1].x
    ensures s[0].x <= x - d
    ensures AreaBelow(s, x - d, x - d + w, y) == AreaBelow(s, x, x + w, y) + d * (s[k].y - s[i].y)
  {
    hide AreaBelow, SkyOk;
    FlatArea(s, width, i, x - d, x, y);
    FlatArea(s, width, k, x + w - d, x + w, y);
    Ascending(s, width, 0, i);
    AreaSplits(s, x - d, x, x + w - d, y);
    AreaSplits(s, x, x + w - d, x + w, y);
    Trade(d, y, s[i].y, s[k].y);
  }

  lemma Trade(d: int, y: int, a: int, b: int)
    ensures d * (y - a) - d * (y - b) == d * (b - a)
  {}

  /** Such a move does not lift the box, since it meets no new step. */
  lemma MoveIsNoHigher(s: Sky, width: int, i: nat, k: nat, x: int, w: int, z: int)
    requires SkyOk(s, width) && i < k && k + 1 < |s| && w > 0
    requires s[i].x <= x < s[i + 1].x && s[k].x < x + w <= s[k + 1].x
    requires s[i].x <= z <= s[i + 1].x && s[k].x <= z + w <= s[k + 1].x
    ensures s[0].x <= x && s[0].x <= z && Top(s, z, w) <= Top(s, x, w)
  {
    hide Height, Top;
    Ascending(s, width, 0, i);
    TopIsMax(s, x, w);
    HeightUntilNext(s, width, i, s[i].x, s[i + 1].x);
    HeightUntilNext(s, width, k, s[k].x, s[k + 1].x);
    assert Height(s, x) <= Top(s, x, w) && Height(s, x + w - 1) <= Top(s, x, w);
    TopAtMost(s, z, w, Top(s, x, w));
  }

  /** A position that is no corner scores worse than one that is. */
  lemma OffCornerLoses(s: Sky, width: int, w: int, x: int) returns (j: nat, z: int)
    requires SkyOk(s, width) && w > 0 && InTarget(width, w, x)
    ensures s[0].x == 0 && 0 <= z && Candidate(s, width, w, j, z)
    ensures z == x || Better(ColumnScore(s, w, z), ColumnScore(s, w, x))
  {
    hide SkyOk, Top, AreaBelow;
    SentinelAtWidth(s, width);
    var i, k := StepsOf(s, width, w, x);
    Ascending(s, width, 0, i);
    Ascending(s, width, k + 1, |s| - 1);
    if x == s[i].x {
      j, z := i, x;
    } else if x + w == s[k + 1].x {
      j, z := i, x;
      assert RightAligned(s, w, k + 1, i, x);
    } else if i == k {
      j, z := i, s[i].x;
      OneStep(s, width, i, x, w);
    } else {
      j, z := BetterCorner(s, width, w, x, i, k);
    }
  }

  lemma OneStep(s: Sky, width: int, i: nat, x: int, w: int)
    requires SkyOk(s, width) && i + 1 < |s| && s[i].x < x && x + w <= s[i + 1].x && w > 0
    ensures 0 == s[0].x <= s[i].x && LeftAligned(s, width, w, i)
    ensures Better(ColumnScore(s, w, s[i].x), ColumnScore(s, w, x))
  {
    hide SkyOk, Height, AreaBelow;
    SentinelAtWidth(s, width);
    Ascending(s, width, i, i + 1);
    Ascending(s, width, i + 1, |s| - 1);
    LeftEndIsNoHigher(s, width, i, x, w);
    HeightUntilNext(s, width, i, s[i].x, s[i + 1].x);
    TopIsMax(s, x, w);
    TopIsMax(s, s[i].x, w);
    assert Height(s, s[i].x) == Height(s, x) == s[i].y;
    TopAtMost(s, x, w, s[i].y);
    FlatArea(s, width, i, x, x + w, s[i].y);
    FlatArea(s, width, i, s[i].x, s[i].x + w, s[i].y);
  }

  lemma BetterCorner(s: Sky, width: int, w: int, x: int, i: nat, k: nat) returns (j: nat, z: int)
    requires SkyOk(s, width) && w > 0 && i < k && k + 1 < |s| && s[i + 1].x <= s[k].x
    requires s[i].x < x < s[i + 1].x && s[k].x < x + w < s[k + 1].x
    ensures s[0].x == 0 && 0 <= z && Candidate(s, width, w, j, z)
    ensures Better(ColumnScore(s, w, z), ColumnScore(s, w, x))
  {
    hide SkyOk, Top, AreaBelow, Height, Better, ColumnScore, Candidate;
    SentinelAtWidth(s, width);
    Ascending(s, width, 0, i);
    Ascending(s, width, k + 1, |s| - 1);
    var d := Min(x - s[i].x, x + w - s[k].x);
    if Top(s, x - d, w) < Top(s, x, w) || s[k].y <= s[i].y {
      LeftCorner(s, width, w, x - d, i, k);
      LeftIsBetter(s, width, w, x, i, k, d);
      j, z := i, x - d;
    } else {
      var e := Min(s[i + 1].x - x, s[k + 1].x - (x + w));
      j := RightCorner(s, width, w, x + e, i, k);
      RightIsBetter(s, width, w, x, i, k, e);
      z := x + e;
    }
  }

  lemma LeftIsBetter(s: Sky, width: int, w: int, x: int, i: nat, k: nat, d: int)
    requires SkyOk(s, width) && w > 0 && i < k && k + 1 < |s| && s[i + 1].x <= s[k].x
    requires s[i].x < x < s[i + 1].x && s[k].x < x + w < s[k + 1].x
    requires 0 < d <= x - s[i].x && d <= x + w - s[k].x && s[0].x <= x - d
    requires Top(s, x - d, w) < Top(s, x, w) || s[k].y <= s[i].y
    ensures Better(ColumnScore(s, w, x - d), ColumnScore(s, w, x))
  {
    hide SkyOk, Top, AreaBelow, Height;
    MoveIsNoHigher(s, width, i, k, x, w, x - d);
    AreaMoves(s, width, i, k, x, w, d, Top(s, x, w));
    Sign(d, s[i].y - s[k].y);
    assert d * (s[k].y - s[i].y) == -(d * (s[i].y - s[k].y));
  }

  lemma RightIsBetter(s: Sky, width: int, w: int, x: int, i: nat, k: nat, e: int)
    requires SkyOk(s, width) && w > 0 && i < k && k + 1 < |s| && s[i + 1].x <= s[k].x
    requires s[i].x < x < s[i + 1].x && s[k].x < x + w < s[k + 1].x
    requires 0 < e <= s[i + 1].x - x && e <= s[k + 1].x - (x + w) && s[0].x <= x && s[k].y > s[i].y
    ensures Better(ColumnScore(s, w, x + e), ColumnScore(s, w, x))
  {
    hide SkyOk, Top, AreaBelow, Height;
    MoveIsNoHigher(s, width, i, k, x, w, x + e);
    AreaMoves(s, width, i, k, x + e, w, e, Top(s, x, w));
    Sign(e, s[k].y - s[i].y);
  }

  lemma Sign(d: int, h: int)
    requires d > 0
    ensures (h > 0 ==> d * h > 0) && (h >= 0 ==> d * h >= 0) && (h == 0 ==> d * h == 0)
  {}

  lemma LeftCorner(s: Sky, width: int, w: int, z: int, i: nat, k: nat)
    requires SkyOk(s, width) && w > 0 && i < k && k + 1 < |s|
    requires s[i].x <= z < s[i + 1].x && s[k].x <= z + w < s[k + 1].x && (z == s[i].x || z + w == s[k].x)
    ensures Candidate(s, width, w, i, z)
  {
    if z != s[i].x {
      assert RightAligned(s, w, k, i, z);
    }
  }

  lemma RightCorner(s: Sky, width: int, w: int, z: int, i: nat, k: nat) returns (j: nat)
    requires SkyOk(s, width) && w > 0 && i < k && k + 1 < |s|
    requires s[i].x <= z <= s[i + 1].x && s[k].x < z + w <= s[k + 1].x && (z == s[i + 1].x || z + w == s[k + 1].x)
    ensures Candidate(s, width, w, j, z)
  {
    if z == s[i + 1].x {
      j := i + 1;
    } else {
      j := i;
      assert RightAligned(s, w, k + 1, i, z);
    }
  }

  // ------------------------------------------------------------------- bottom-left

  lemma LeftPosition(s: Sky, width: int, w: int, i: nat)
    requires SkyOk(s, width) && w > 0 && LeftAligned(s, width, w, i)
    ensures s[0].x == 0 <= s[i].x && InTarget(width, w, s[i].x)
    ensures Measure(s, i, s[i].x, w).y == Top(s, s[i].x, w)
  {
    Ascending(s, width, i, i + 1);
    hide SkyOk, Measure, Top;
    SpanIsColumn(s, width, i, s[i].x, w);
  }

  /** For every column there is a left-aligned position at or before it that lies no higher. */
  lemma LeftPositionOf(s: Sky, width: int, w: int, x: int) returns (i: nat)
    requires SkyOk(s, width) && w > 0 && InTarget(width, w, x)
    ensures s[0].x == 0 && LeftAligned(s, width, w, i) && 0 <= s[i].x <= x < s[i + 1].x
    ensures Top(s, s[i].x, w) <= Top(s, x, w)
  {
    hide SkyOk, Top;
    var k;
    i, k := StepsOf(s, width, w, x);
    assert SpanOf(s, width, i, x, w);
    LeftEndIsNoHigher(s, width, i, x, w);
  }

  ghost predicate LowestLeft(s: Sky, width: int, w: int, r: Found)
    requires SkyOk(s, width)
  {
    match r
    case None => forall z :: InTarget(width, w, z) ==> Top(s, z, w) >= 0x4000_0000
    case Found(x, y, node) =>
      && InTarget(width, w, x) && y == Top(s, x, w) < 0x4000_0000
      && node + 1 < |s| && s[node].x <= x < s[node + 1].x
      && forall z :: InTarget(width, w, z) ==> y < Top(s, z, w) || (y == Top(s, z, w) && x <= z)
  }

  lemma BottomLeftIsLowest(s: Sky, t: Target, w: int, r: Found)
    requires SkyOk(s, t.width) && w > 0 && IsBottomLeft(s, t, w, r)
    ensures LowestLeft(s, t.width, w, r)
  {
    hide SkyOk, Top, Measure;
    SentinelAtWidth(s, t.width);
    if r.Found? {
      LeftPosition(s, t.width, w, r.node);
      Ascending(s, t.width, r.node, r.node + 1);
    }
    forall z | InTarget(t.width, w, z)
      ensures r.None? ==> Top(s, z, w) >= NO_SCORE
      ensures r.Found? ==> r.y < Top(s, z, w) || (r.y == Top(s, z, w) && r.x <= z)
    {
      var i := LeftPositionOf(s, t.width, w, z);
      LeftPosition(s, t.width, w, i);
      if r.Found? && r.node <= i {
        Ascending(s, t.width, r.node, i);
      }
    }
  }

  lemma LowestIsBottomLeft(s: Sky, t: Target, w: int, r: Found)
    requires SkyOk(s, t.width) && w > 0 && LowestLeft(s, t.width, w, r)
    ensures IsBottomLeft(s, t, w, r)
  {
    hide SkyOk, Top, Measure;
    SentinelAtWidth(s, t.width);
    if r.Found? {
      assert SpanOf(s, t.width, r.node, r.x, w);
      LeftEndIsNoHigher(s, t.width, r.node, r.x, w);
      assert LeftAligned(s, t.width, w, r.node) && InTarget(t.width, w, s[r.node].x);
      LeftPosition(s, t.width, w, r.node);
    }
    forall i: nat | LeftAligned(s, t.width, w, i)
      ensures r.None? ==> Measure(s, i, s[i].x, w).y >= NO_SCORE
      ensures r.Found? ==> r.y <= Measure(s, i, s[i].x, w).y && (i < r.node ==> r.y < Measure(s, i, s[i].x, w).y)
    {
      LeftPosition(s, t.width, w, i);
      if r.Found? && i < r.node {
        Ascending(s, t.width, i, r.node);
      }
    }
  }

  // ----------------------------------------------------------------------- best-fit

  /** The area between the bottom of a box there and the skyline. */
  function Waste(s: Sky, x: int, w: int): int
    requires |s| > 0 && s[0].x <= x
  {
    AreaBelow(s, x, x + w, Top(s, x, w))
  }

  /** The place beats the score from which the search starts. */
  predicate BeatsStart(s: Sky, x: int, w: int)
    requires |s| > 0 && s[0].x <= x
  {
    Top(s, x, w) < 0x4000_0000 || (Top(s, x, w) == 0x4000_0000 && Waste(s, x, w) < 0x4000_0000)
  }

  /** A box is at least as well off at x as at z. */
  predicate NoWorse(s: Sky, x: int, z: int, w: int)
    requires |s| > 0 && s[0].x <= x && s[0].x <= z
  {
    || Top(s, x, w) < Top(s, z, w)
    || (Top(s, x, w) == Top(s, z, w) && Waste(s, x, w) < Waste(s, z, w))
    || (Top(s, x, w) == Top(s, z, w) && Waste(s, x, w) == Waste(s, z, w) && x <= z)
  }

  ghost predicate LeastWaste(s: Sky, t: Target, w: int, height: int, r: Found)
    requires SkyOk(s, t.width)
  {
    match r
    case None =>
      forall z :: InTarget(t.width, w, z) && Top(s, z, w) + height <= t.height ==> !BeatsStart(s, z, w)
    case Found(x, y, node) =>
      && InTarget(t.width, w, x) && y == Top(s, x, w) && y + height <= t.height
      && node + 1 < |s| && s[node].x <= x < s[node + 1].x
      && BeatsStart(s, x, w)
      && forall z :: InTarget(t.width, w, z) && Top(s, z, w) + height <= t.height ==> NoWorse(s, x, z, w)
  }

  /** The same among the left ends of the steps alone. */
  ghost predicate LeastWasteAtNodes(s: Sky, t: Target, w: int, height: int, r: Found)
    requires SkyOk(s, t.width)
  {
    && (r.Found? ==>
          && r.node + 1 < |s| && r.x == s[r.node].x && InTarget(t.width, w, r.x)
          && r.y == Top(s, r.x, w) && r.y + height <= t.height && BeatsStart(s, r.x, w))
    && forall i :: 0 <= i < |s| - 1 && InTarget(t.width, w, s[i].x) && Top(s, s[i].x, w) + height <= t.height ==>
         if r.Found? then NoWorse(s, r.x, s[i].x, w) else !BeatsStart(s, s[i].x, w)
  }

  lemma FirstPassIsLeastWaste(s: Sky, t: Target, w: int, height: int, r: Found)
    requires SkyOk(s, t.width) && FloorLast(s) && w > 0 && BestFitUpTo(s, t, w, height, |s|, 0, r)
    ensures LeastWasteAtNodes(s, t, w, height, r)
  {
    hide SkyOk, Top, Measure, AreaBelow, FloorLast, ScoreAt;
    SentinelAtWidth(s, t.width);
    if r.Found? {
      CandidateColumn(s, t, w, height, r.node, r.x);
    }
    forall i | 0 <= i < |s| - 1 && InTarget(t.width, w, s[i].x) && Top(s, s[i].x, w) + height <= t.height
      ensures if r.Found? then NoWorse(s, r.x, s[i].x, w) else !BeatsStart(s, s[i].x, w)
    {
      assert Considered(s, t.width, w, |s|, 0, i, s[i].x);
      CandidateColumn(s, t, w, height, i, s[i].x);
    }
  }

  lemma CandidateColumn(s: Sky, t: Target, w: int, height: int, i: nat, x: int)
    requires SkyOk(s, t.width) && FloorLast(s) && w > 0 && Candidate(s, t.width, w, i, x)
    ensures s[0].x == 0 <= x && InTarget(t.width, w, x) && i + 1 < |s| && s[i].x <= x < s[i + 1].x
    ensures InRange(s, w, x) && ScoreAt(s, w, i, x) == ColumnScore(s, w, x)
    ensures Fitting(s, t, w, height, i, x) <==> Top(s, x, w) + height <= t.height
  {
    hide SkyOk, Top, Measure, AreaBelow, FloorLast, Candidate;
    CandidateInSpan(s, t.width, w, i, x);
    SpanIsColumn(s, t.width, i, x, w);
  }

  lemma BestFitIsLeastWaste(s: Sky, t: Target, w: int, height: int, r: Found)
    requires SkyOk(s, t.width) && FloorLast(s) && w > 0 && IsBestFit(s, t, w, height, r)
    ensures LeastWaste(s, t, w, height, r)
  {
    hide SkyOk, Top, Measure, AreaBelow, FloorLast, Candidate, ScoreAt;
    SentinelAtWidth(s, t.width);
    if r.Found? {
      CandidateColumn(s, t, w, height, r.node, r.x);
      ScoreParts(s, w, r.node, r.x);
    }
    forall x | InTarget(t.width, w, x) && Top(s, x, w) + height <= t.height
      ensures !Better(ColumnScore(s, w, x), if r.Found? then ColumnScore(s, w, r.x) else NOTHING)
    {
      var j, z := OffCornerLoses(s, t.width, w, x);
      CandidateColumn(s, t, w, height, j, z);
      assert Fitting(s, t, w, height, j, z);
    }
  }

  lemma ScoreParts(s: Sky, w: int, i: nat, x: int)
    requires InRange(s, w, x)
    ensures ScoreAt(s, w, i, x).x == x
  {}

  lemma LeastWasteIsBestFit(s: Sky, t: Target, w: int, height: int, r: Found)
    requires SkyOk(s, t.width) && FloorLast(s) && w > 0 && LeastWaste(s, t, w, height, r)
    ensures IsBestFit(s, t, w, height, r)
  {
    hide SkyOk, Top, Measure, AreaBelow, FloorLast, Candidate, ScoreAt;
    SentinelAtWidth(s, t.width);
    if r.Found? {
      var j, z := OffCornerLoses(s, t.width, w, r.x);
      CandidateColumn(s, t, w, height, j, z);
      SameStep(s, t.width, j, r.node, r.x);
      CandidateColumn(s, t, w, height, r.node, r.x);
    }
    forall i: nat, x: int | Fitting(s, t, w, height, i, x)
      ensures InRange(s, w, x)
      ensures !Better(ScoreAt(s, w, i, x), if r.Found? then ScoreAt(s, w, r.node, r.x) else NOTHING)
    {
      CandidateColumn(s, t, w, height, i, x);
    }
  }

  lemma SameStep(s: Sky, width: int, i: nat, j: nat, x: int)
    requires SkyOk(s, width) && i + 1 < |s| && j + 1 < |s|
    requires s[j].x <= x < s[j + 1].x
    ensures s[i].x <= x < s[i + 1].x ==> i == j
  {
    if s[i].x <= x < s[i + 1].x {
      StepUnique(s, width, i, j, x);
    }
  }

  // ------------------------------------------------------- the best over all columns

  /** The position that the heuristic promises, over every column of the target: for bottom-left
      the lowest, and the leftmost of those; for best-fit, among those that fit below the top,
      the lowest, of those the least wasteful, and of those the leftmost. None stands for no
      position that beats the score from which the search starts. */
  ghost predicate IsBestColumn(s: Sky, t: Target, width: int, height: int, r: Found)
    requires SkyOk(s, t.width) && t.align >= 1
  {
    var w := Aligned(width, t.align);
    if w > t.width || height > t.height then r == None
    else if t.heuristic == BottomLeft then LowestLeft(s, t.width, w, r)
    else LeastWaste(s, t, w, height, r)
  }

  /** The search's position is the best over all columns, and the other way round. */
  lemma BestIsBestColumn(s: Sky, t: Target, width: int, height: int, r: Found)
    requires SkyOk(s, t.width) && FloorLast(s) && t.align >= 1 && width > 0
    ensures IsBest(s, t, width, height, r) <==> IsBestColumn(s, t, width, height, r)
  {
    hide SkyOk, FloorLast, IsBottomLeft, IsBestFit, LowestLeft, LeastWaste;
    var w := Aligned(width, t.align);
    if w <= t.width && height <= t.height {
      if t.heuristic == BottomLeft {
        if IsBottomLeft(s, t, w, r) {
          BottomLeftIsLowest(s, t, w, r);
        }
        if LowestLeft(s, t.width, w, r) {
          LowestIsBottomLeft(s, t, w, r);
        }
      } else {
        if IsBestFit(s, t, w, height, r) {
          BestFitIsLeastWaste(s, t, w, height, r);
        }
        if LeastWaste(s, t, w, height, r) {
          LeastWasteIsBestFit(s, t, w, height, r);
        }
      }
    }
  }

  /** The promise leaves no freedom: any two positions that meet it are the same. */
  lemma BestColumnIsUnique(s: Sky, t: Target, width: int, height: int, r1: Found, r2: Found)
    requires SkyOk(s, t.width) && t.align >= 1
    requires IsBestColumn(s, t, width, height, r1) && IsBestColumn(s, t, width, height, r2)
    ensures r1 == r2
  {
    hide SkyOk, Top, AreaBelow, Aligned;
    if r1.Found? && r2.Found? {
      assert r1.x == r2.x;
      StepUnique(s, t.width, r1.node, r2.node, r1.x);
    }
  }

  // ------------------------------------------------------------------- completeness

  /** Somewhere in the target there is room for the rounded box below the top. */
  ghost predicate CanFit(s: Sky, t: Target, width: int, height: int)
    requires SkyOk(s, t.width) && t.align >= 1
  {
    var w := Aligned(width, t.align);
    w <= t.width && height <= t.height
    && exists x :: InTarget(t.width, w, x) && Top(s, x, w) + height <= t.height
  }

  /** Such a place that also beats the score from which the search starts. */
  ghost predicate CanFitLow(s: Sky, t: Target, width: int, height: int)
    requires SkyOk(s, t.width) && t.align >= 1
  {
    var w := Aligned(width, t.align);
    && w <= t.width && height <= t.height
    && exists x :: InTarget(t.width, w, x) && Top(s, x, w) + height <= t.height
         && if t.heuristic == BottomLeft then Top(s, x, w) < 0x4000_0000 else BeatsStart(s, x, w)
  }

  /** A box is refused for lack of room exactly when no column of the target has room for it below
      the top; on targets more than 2^30 high, none that beats the starting score. */
  lemma BestFitsIff(s: Sky, t: Target, width: int, height: int, r: Found)
    requires SkyOk(s, t.width) && t.align >= 1 && width > 0 && height > 0
    requires IsBestColumn(s, t, width, height, r)
    ensures r.Found? && r.y + height <= t.height <==> CanFitLow(s, t, width, height)
    ensures t.height <= 0x4000_0000 ==> (CanFitLow(s, t, width, height) <==> CanFit(s, t, width, height))
  {
    hide Top, AreaBelow;
  }
}
