/** Where the floor can still show below the skyline, and what that means for the positions that
    the packer chooses. */
module Floor {
  import opened Skyline
  import opened Placement
  import opened BestPosition

  lemma StepIsMeasured(s: Sky, width: int, i: nat, x: int, w: int)
    requires SpanOf(s, width, i, x, w)
    ensures s[i].y <= Measure(s, i, x, w).y
  {
    hide Measure;
    MeasureIsMax(s, width, i, x, w);
    HeightOfStep(s, width, i, x);
  }

  /** A best position never lies strictly inside a step on the floor: the same step's left end
      is as low and wastes as little. */
  lemma BestStartsFloorStep(s: Sky, t: Target, width: int, height: int, r: Found)
    requires SkyOk(s, t.width) && FloorLast(s) && t.align >= 1 && width > 0
    requires IsBest(s, t, width, height, r) && r.Found?
    ensures r.node < |s| && (s[r.node].x < r.x ==> s[r.node].y > 0)
  {
    hide Measure;
    var w := Aligned(width, t.align);
    CandidateInSpan(s, t.width, w, r.node, r.x);
    if s[r.node].x < r.x && s[r.node].y <= 0 {
      LeftEndIsBetter(s, t, w, height, r.node, r.x);
    }
  }

  lemma LeftEndIsBetter(s: Sky, t: Target, w: int, height: int, i: nat, x: int)
    requires SpanOf(s, t.width, i, x, w) && s[i].x < x && i + 2 == |s| && s[i].y == 0 && height <= t.height
    ensures InRange(s, w, x) && InRange(s, w, s[i].x)
    ensures Fitting(s, t, w, height, i, s[i].x) && Better(ScoreAt(s, w, i, s[i].x), ScoreAt(s, w, i, x))
  {
    hide Measure;
    FloorSpan(s, t.width, i, x, w);
    FloorSpan(s, t.width, i, s[i].x, w);
  }

  /** Placing a box keeps the floor to the last step. */
  lemma InsertKeepsFloorLast(s: Sky, width: int, i: nat, x: int, top: int, end: int)
    requires Placeable(s, width, i, x, top, end) && FloorLast(s) && top > 0
    requires s[i].x < x ==> s[i].y > 0
    ensures FloorLast(Insert(s, i, x, top, end))
  {
    hide Insert;
    var t := Insert(s, i, x, top, end);
    InsertLength(s, i, x, top, end);
    forall j | 0 <= j < |t| - 2
      ensures t[j].y > 0
    {
      InsertSteps(s, i, x, top, end, j);
    }
  }

  lemma InsertLength(s: Sky, i: nat, x: int, top: int, end: int)
    requires i + 1 < |s|
    ensures var c := FirstCut(s, i, x); |Insert(s, i, x, top, end)| == c + 1 + |s| - FirstKept(s, c, end)
  {}

  /** Placing a box at its best position keeps both facts about the skyline. */
  lemma BestKeepsSky(s: Sky, t: Target, width: int, height: int, r: Found)
    requires SkyOk(s, t.width) && FloorLast(s) && t.align >= 1 && width > 0 && height > 0
    requires IsBest(s, t, width, height, r) && r.Found?
    ensures r.node + 1 < |s|
    ensures var after := Insert(s, r.node, r.x, r.y + height, r.x + width);
            SkyOk(after, t.width) && FloorLast(after)
  {
    hide Insert, IsBest, FloorLast, SkyOk, SpanOf, IsMaxHeight, Aligned;
    BestIsPlaceable(s, t, width, height, r);
    BestStartsFloorStep(s, t, width, height, r);
    InsertKeepsSky(s, t.width, r.node, r.x, r.y + height, r.x + width);
    InsertKeepsFloorLast(s, t.width, r.node, r.x, r.y + height, r.x + width);
  }

  lemma BestIsPlaceable(s: Sky, t: Target, width: int, height: int, r: Found)
    requires SkyOk(s, t.width) && t.align >= 1 && width > 0 && height > 0
    requires IsBest(s, t, width, height, r) && r.Found?
    ensures Placeable(s, t.width, r.node, r.x, r.y + height, r.x + width) && r.y >= 0
  {
    hide Insert, IsBest, SkyOk, IsMaxHeight;
    BestIsSupported(s, t, width, height, r);
    SpanInside(s, t.width, r.node, r.x, Aligned(width, t.align));
  }

  lemma SpanInside(s: Sky, width: int, i: nat, x: int, w: int)
    requires SpanOf(s, width, i, x, w)
    ensures SkyOk(s, width) && i + 1 < |s| && s[i].x <= x < s[i + 1].x && x + w <= width
  {}

  /** The left end of a floor step that is wide enough is the best position, under either
      heuristic. */
  lemma FloorIsBest(s: Sky, t: Target, width: int, height: int)
    requires SkyOk(s, t.width) && FloorLast(s) && t.align >= 1 && width > 0 && 0 < height <= t.height
    requires s[|s| - 2].y == 0 && s[|s| - 2].x + Aligned(width, t.align) <= t.width
    ensures IsBest(s, t, width, height, Found(s[|s| - 2].x, 0, |s| - 2))
  {
    hide Measure;
    var i, w: nat := |s| - 2, Aligned(width, t.align);
    var x := s[i].x;
    FloorSpan(s, t.width, i, x, w);
    forall j: nat, z: int | Candidate(s, t.width, w, j, z)
      ensures SpanOf(s, t.width, j, z, w) && InRange(s, w, z)
      ensures Measure(s, j, z, w).y >= 0 && (j != i ==> Measure(s, j, z, w).y > 0)
      ensures j == i ==> x <= z && Measure(s, j, z, w) == Span(0, 0)
    {
      CandidateInSpan(s, t.width, w, j, z);
      StepIsMeasured(s, t.width, j, z, w);
      if j == i {
        FloorSpan(s, t.width, j, z, w);
      }
    }
    if t.heuristic == BottomLeft {
      forall j: nat | LeftAligned(s, t.width, w, j)
        ensures 0 <= Measure(s, j, s[j].x, w).y && (j < i ==> 0 < Measure(s, j, s[j].x, w).y)
      {
        assert Candidate(s, t.width, w, j, s[j].x);
      }
    } else {
      assert Candidate(s, t.width, w, i, x);
    }
  }

  // ----------------------------------------------------------- how far a box raises

  /** Without alignment the new skyline is exactly the box over its own columns. */
  lemma RaisesOwnColumns(s: Sky, t: Target, width: int, height: int, r: Found)
    requires SkyOk(s, t.width) && t.align == 1 && width > 0
    requires IsBest(s, t, width, height, r) && r.Found?
    ensures r.node + 1 < |s| && RaisedTo(s, r.node, r.x, r.x + width) == r.x + width
  {
    hide Measure;
    CandidateInSpan(s, t.width, width, r.node, r.x);
    RaisesExactlyIff(s, t.width, r.node, r.x, 0, r.x + width);
    if s[r.node].x < r.x {
      var k: nat :| RightAligned(s, width, k, r.node, r.x);
      assert s[r.node].x < s[k].x;
    }
  }
}
