/** A run in which a box raises more columns than it covers. */
module Overhang {
  import opened Skyline
  import opened Placement
  import opened BestPosition
  import opened RectPack
  import opened PackRects
  import opened Floor
  import opened Columns
  import opened NodeBudget

  /** Best-fit on a target 16 wide with 4 nodes, whose widths are rounded to multiples of 4. */
  const NARROW := Target(16, 16, 4, BestFit)

  const TOP := Step(16, 0x4000_0000)
  const FIRST := [Step(0, 1), Step(3, 0), TOP]
  const SECOND := [Step(0, 1), Step(3, 5), Step(5, 0), TOP]
  const THIRD := [Step(0, 1), Step(3, 5), Step(5, 6), Step(13, 0), TOP]
  const BOXES := [Rect(0, 3, 1, 0, 0, 0), Rect(1, 2, 5, 3, 0, 0), Rect(2, 8, 6, 5, 0, 0)]

  /** One box put on the floor step next to the stacks. */
  lemma OnFloor(s: Sky, r: Rect, s2: Sky)
    requires SkyOk(s, 16) && FloorLast(s) && |s| < 6 && s[|s| - 2].y == 0
    requires r.x == s[|s| - 2].x && r.y == 0 && r.w > 0 && 0 < r.h <= 16 && r.x + Aligned(r.w, 4) <= 16
    requires s2 == Insert(s, |s| - 2, r.x, r.h, r.x + r.w)
    ensures Outcome(s, NARROW, 4, r, s2)
  {
    hide IsBest, IsBestColumn, Insert;
    FloorIsBest(s, NARROW, r.w, r.h);
    BestIsBestColumn(s, NARROW, r.w, r.h, Found(r.x, 0, |s| - 2));
    assert PlacedAt(s, NARROW, 4, r, Found(r.x, 0, |s| - 2), s2);
  }

  lemma FirstStep()
    ensures Outcome(Flat(16), NARROW, 4, BOXES[0], FIRST)
  {
    assert Insert(Flat(16), 0, 0, 1, 3) == FIRST;
    OnFloor(Flat(16), BOXES[0], FIRST);
  }

  lemma SecondStep()
    ensures Outcome(FIRST, NARROW, 4, BOXES[1], SECOND)
  {
    assert Insert(FIRST, 1, 3, 5, 5) == SECOND;
    OnFloor(FIRST, BOXES[1], SECOND);
  }

  lemma ThirdStep()
    ensures Outcome(SECOND, NARROW, 4, BOXES[2], THIRD)
  {
    assert Insert(SECOND, 2, 5, 6, 13) == THIRD;
    OnFloor(SECOND, BOXES[2], THIRD);
  }

  lemma ThirdIsReached()
    ensures Greedy(Flat(16), NARROW, 4, BOXES, THIRD)
  {
    hide Insert, Greedy, Outcome, IsBest, IsBestColumn, SkyOk;
    FirstStep();
    SecondStep();
    ThirdStep();
    EmptyRun(Flat(16), NARROW, 4);
    GreedyStep(Flat(16), NARROW, 4, [], Flat(16), BOXES[0], FIRST);
    GreedyStep(Flat(16), NARROW, 4, [] + [BOXES[0]], FIRST, BOXES[1], SECOND);
    GreedyStep(Flat(16), NARROW, 4, [] + [BOXES[0]] + [BOXES[1]], SECOND, BOXES[2], THIRD);
    assert [] + [BOXES[0]] + [BOXES[1]] + [BOXES[2]] == BOXES;
  }

  lemma ThirdScores()
    ensures Measure(THIRD, 0, 0, 4) == Span(5, 12) && Measure(THIRD, 0, 1, 4) == Span(5, 8)
  {
    assert Scan(THIRD, 2, 0, 4, 5, 12, 5) == Span(5, 12);
    assert Scan(THIRD, 1, 0, 4, 1, 0, 3) == Span(5, 12);
    assert Scan(THIRD, 2, 1, 4, 5, 8, 4) == Span(5, 8);
    assert Scan(THIRD, 1, 1, 4, 1, 0, 2) == Span(5, 8);
  }

  /** Every other position covers a column of the third box. */
  lemma ThirdIsHigh(i: nat, x: int)
    requires SpanOf(THIRD, 16, i, x, 4) && 2 <= x <= 12
    ensures Measure(THIRD, i, x, 4).y >= 6
  {
    var c := Max(x, 5);
    HeightOfStep(THIRD, 16, 2, c);
    hide Measure, Height;
    MeasureIsMax(THIRD, 16, i, x, 4);
    assert Height(THIRD, c) == 6;
  }

  lemma BestOnThird()
    ensures SkyOk(THIRD, 16) && IsBest(THIRD, NARROW, 1, 1, Found(1, 5, 0))
  {
    hide Measure;
    ThirdScores();
    assert Aligned(1, 4) == 4;
    forall i: nat, x: int | Candidate(THIRD, 16, 4, i, x)
      ensures InRange(THIRD, 4, x) && (x == 0 || x == 1 || Measure(THIRD, i, x, 4).y >= 6)
      ensures x <= 1 ==> i == 0
    {
      CandidateInSpan(THIRD, 16, 4, i, x);
      if x > 1 {
        ThirdIsHigh(i, x);
      }
    }
    assert RightAligned(THIRD, 4, 2, 0, 1);
  }

  /** The last box covers column 1 alone, and column 2 is raised with it: the rounded width
      put its left end strictly inside a step that goes on beyond its right end. */
  lemma BoxRaisesMoreThanItself()
    ensures NARROW == DefaultTarget(16, 16, 4, BestFit)
    ensures Greedy(Flat(16), NARROW, 4, BOXES, THIRD)
    ensures SkyOk(THIRD, 16) && IsBestColumn(THIRD, NARROW, 1, 1, Found(1, 5, 0))
    ensures RaisedTo(THIRD, 0, 1, 2) == 3 && Height(THIRD, 2) == 1 && Height(Insert(THIRD, 0, 1, 6, 2), 2) == 6
  {
    hide IsBest, IsBestColumn, Greedy, Height, Insert;
    ThirdIsReached();
    BestOnThird();
    BestIsBestColumn(THIRD, NARROW, 1, 1, Found(1, 5, 0));
    HeightOfStep(THIRD, 16, 0, 2);
    InsertHeights(THIRD, 16, 0, 1, 6, 2, 2);
  }
}
