/** Whether the default rounding of widths keeps the packer from running out of nodes. */
module NodeBudget {
  import opened NumberTheory
  import opened Skyline
  import opened Placement
  import opened BestPosition
  import opened Floor
  import opened Columns
  import opened RectPack
  import opened PackRects

  /** The skyline and the settings right after the start on a new target. */
  function Flat(width: int): Sky {
    [Step(0, 0), Step(width, 0x4000_0000)]
  }

  function DefaultTarget(width: int, height: int, numNodes: nat, heuristic: Heuristic): Target
    requires width >= 1 && numNodes >= 1
  {
    Target(width, height, AlignFor(width, numNodes), heuristic)
  }

  /** Some run from the start comes to a box that is refused only because no node is left: its
      best position exists and lies below the top. */
  ghost predicate CanRunOut(width: int, height: int, numNodes: nat, heuristic: Heuristic)
    requires width >= 1 && numNodes >= 1
  {
    exists run, s, r, best :: RunsOut(DefaultTarget(width, height, numNodes, heuristic), numNodes, run, s, r, best)
  }

  ghost predicate RunsOut(t: Target, numNodes: nat, run: seq<Rect>, s: Sky, r: Rect, best: Found)
    requires t.align >= 1
  {
    && (forall q <- run :: q.w >= 0 && q.h >= 0)
    && Greedy(Flat(t.width), t, numNodes, run, s) && SkyOk(s, t.width)
    && r.w > 0 && r.h > 0 && IsBestColumn(s, t, r.w, r.h, best)
    && best.Found? && best.y + r.h <= t.height && |s| >= numNodes + 2
  }

  /** What holds of the skyline at the start holds after every run. */
  lemma {:induction false} GreedyKeepsSky(s: Sky, t: Target, numNodes: nat, run: seq<Rect>, s2: Sky)
    requires SkyOk(s, t.width) && FloorLast(s) && Greedy(s, t, numNodes, run, s2)
    requires forall q <- run :: q.w >= 0 && q.h >= 0
    ensures SkyOk(s2, t.width) && FloorLast(s2)
    decreases |run|
  {
    hide SkyOk, FloorLast, Outcome;
    if run != [] {
      var n := |run| - 1;
      var mid :| Greedy(s, t, numNodes, run[..n], mid) && Outcome(mid, t, numNodes, run[n], s2);
      GreedyKeepsSky(s, t, numNodes, run[..n], mid);
      OutcomeKeepsSky(mid, t, numNodes, run[n], s2);
    }
  }

  lemma OutcomeKeepsSky(s: Sky, t: Target, numNodes: nat, r: Rect, s2: Sky)
    requires SkyOk(s, t.width) && FloorLast(s) && Outcome(s, t, numNodes, r, s2) && r.w >= 0 && r.h >= 0
    ensures SkyOk(s2, t.width) && FloorLast(s2)
  {
    hide SkyOk, FloorLast, IsBest, IsBestColumn, Insert;
    if r.w != 0 && r.h != 0 {
      var best :| IsBestColumn(s, t, r.w, r.h, best) && PlacedAt(s, t, numNodes, r, best, s2);
      if best.Found? {
        BestIsBestColumn(s, t, r.w, r.h, best);
        BestKeepsSky(s, t, r.w, r.h, best);
      }
    }
  }

  /** The skyline after k boxes of size 1 by 1. */
  function Stairs(k: nat, width: int): (s: Sky)
    requires k < width
    ensures |s| == k + 2 && (forall i :: 0 <= i < k ==> s[i] == Step(i, 1))
    ensures s[k] == Step(k, 0) && s[k + 1] == Step(width, 0x4000_0000)
  {
    seq(k, i => Step(i, 1)) + [Step(k, 0), Step(width, 0x4000_0000)]
  }

  function Units(k: nat): (rs: seq<Rect>)
    ensures |rs| == k
  {
    seq(k, i => Rect(0, 1, 1, i, 0, 0))
  }

  lemma StairsOk(k: nat, width: int)
    requires k < width
    ensures SkyOk(Stairs(k, width), width) && FloorLast(Stairs(k, width))
  {}

  lemma StairsHeight(k: nat, width: int, c: int)
    requires k < width && 0 <= c < width
    ensures Height(Stairs(k, width), c) == if c < k then 1 else 0
  {
    hide Height, SkyOk, Stairs;
    StairsOk(k, width);
    HeightOfStep(Stairs(k, width), width, if c < k then c else k, c);
  }

  /** A span further to the right wastes no less. */
  lemma {:induction false} StairsWaste(k: nat, width: int, x: int, a: nat)
    requires k < width && 0 <= x && x + a <= width
    ensures AreaBelow(Stairs(k, width), 0, a, 1) <= AreaBelow(Stairs(k, width), x, x + a, 1)
  {
    hide Height, Stairs;
    if a > 0 {
      StairsWaste(k, width, x, a - 1);
      StairsHeight(k, width, a - 1);
      StairsHeight(k, width, x + a - 1);
    }
  }

  /** A span that starts on a stair lies at height 1. */
  lemma StairsMeasure(k: nat, width: int, i: nat, x: int, a: int)
    requires 0 <= x < k < width && SpanOf(Stairs(k, width), width, i, x, a)
    ensures Measure(Stairs(k, width), i, x, a) == Span(1, AreaBelow(Stairs(k, width), x, x + a, 1))
  {
    hide Height, Measure, SkyOk, FloorLast, Stairs;
    StairsOk(k, width);
    SpanInside(Stairs(k, width), width, i, x, a);
    SentinelAtWidth(Stairs(k, width), width);
    Ascending(Stairs(k, width), width, 0, i);
    MeasureIsMax(Stairs(k, width), width, i, x, a);
    WasteIsArea(Stairs(k, width), width, i, x, a);
    forall c | x <= c < x + a
      ensures Height(Stairs(k, width), c) == if c < k then 1 else 0
    {
      StairsHeight(k, width, c);
    }
    assert Height(Stairs(k, width), x) == 1;
  }

  /** Where a unit box goes on the stairs: to the floor while that is wide enough, else to the
      top of the first stair. */
  function StairsChoice(k: nat, width: int, a: int): Found {
    if k + a <= width then Found(k, 0, k) else Found(0, 1, 0)
  }

  lemma BestOnStairs(k: nat, t: Target)
    requires 1 <= k < t.width && 1 <= t.align <= t.width < k + t.align && t.height >= 2
    ensures SkyOk(Stairs(k, t.width), t.width) && IsBest(Stairs(k, t.width), t, 1, 1, Found(0, 1, 0))
  {
    hide Measure, SkyOk, Stairs, AreaBelow, FloorLast;
    var s, a := Stairs(k, t.width), t.align;
    StairsOk(k, t.width);
    AlignedUnit(a);
    Ascending(s, t.width, 0, 1);
    forall j: nat, z: int | Candidate(s, t.width, a, j, z)
      ensures InRange(s, a, z) && 0 <= z && ScoreAt(s, a, j, z) == Score(1, AreaBelow(s, z, z + a, 1), z)
      ensures AreaBelow(s, 0, a, 1) <= AreaBelow(s, z, z + a, 1)
    {
      CandidateOnStair(k, t, j, z);
    }
    assert Candidate(s, t.width, a, 0, 0);
    if t.heuristic == BottomLeft {
      forall j: nat | LeftAligned(s, t.width, a, j)
        ensures Measure(s, j, s[j].x, a).y == 1
      {
        assert Candidate(s, t.width, a, j, s[j].x);
      }
    } else {
      assert AreaBelow(s, 0, 0 + a, 1) == ScoreAt(s, a, 0, 0).waste;
    }
  }

  lemma CandidateOnStair(k: nat, t: Target, j: nat, z: int)
    requires 1 <= k < t.width && 1 <= t.align <= t.width < k + t.align
    requires Candidate(Stairs(k, t.width), t.width, t.align, j, z)
    ensures var s := Stairs(k, t.width);
            && 0 <= z && s[0].x == 0 && InRange(s, t.align, z)
            && ScoreAt(s, t.align, j, z) == Score(1, AreaBelow(s, z, z + t.align, 1), z)
            && AreaBelow(s, 0, t.align, 1) <= AreaBelow(s, z, z + t.align, 1)
  {
    hide Measure, SkyOk, Stairs, AreaBelow, FloorLast;
    var s := Stairs(k, t.width);
    StairsOk(k, t.width);
    CandidateInSpan(s, t.width, t.align, j, z);
    SpanInside(s, t.width, j, z, t.align);
    Ascending(s, t.width, 0, j);
    StairsMeasure(k, t.width, j, z, t.align);
    StairsWaste(k, t.width, z, t.align);
  }

  lemma AlignedUnit(a: int)
    requires a >= 1
    ensures Aligned(1, a) == a
  {
    assert a % a == 0;
  }

  lemma ChoiceOnStairs(k: nat, t: Target)
    requires k < t.width && 1 <= t.align <= t.width && t.height >= 1
    requires k + t.align > t.width ==> t.height >= 2
    ensures SkyOk(Stairs(k, t.width), t.width)
    ensures IsBestColumn(Stairs(k, t.width), t, 1, 1, StairsChoice(k, t.width, t.align))
  {
    hide SkyOk, FloorLast, IsBest, IsBestColumn, Stairs;
    StairsOk(k, t.width);
    AlignedUnit(t.align);
    if k + t.align <= t.width {
      FloorIsBest(Stairs(k, t.width), t, 1, 1);
    } else {
      BestOnStairs(k, t);
    }
    BestIsBestColumn(Stairs(k, t.width), t, 1, 1, StairsChoice(k, t.width, t.align));
  }

  /** Rounded widths still leave room for numNodes unit boxes side by side. */
  lemma AlignFits(width: int, numNodes: nat)
    requires 1 <= numNodes < width
    ensures numNodes - 1 + AlignFor(width, numNodes) <= width
  {
    var b := width - numNodes + 1;
    assert numNodes * b - width == (numNodes - 1) * (width - numNodes);
    AlignIsLeastCover(width, numNodes, b);
  }

  lemma StairsGrow(k: nat, width: int)
    requires k + 1 < width
    ensures Insert(Stairs(k, width), k, k, 1, k + 1) == Stairs(k + 1, width)
  {
    var s := Stairs(k, width);
    assert FirstKept(s, FirstCut(s, k, k), k + 1) == k;
  }

  lemma UnitOnStairs(k: nat, t: Target, numNodes: nat)
    requires k < numNodes < t.width && t.align >= 1 && k + t.align <= t.width && t.height >= 1
    ensures Outcome(Stairs(k, t.width), t, numNodes, Rect(0, 1, 1, k, 0, 0), Stairs(k + 1, t.width))
  {
    hide IsBestColumn, Insert, Stairs, SkyOk;
    ChoiceOnStairs(k, t);
    StairsGrow(k, t.width);
    assert PlacedAt(Stairs(k, t.width), t, numNodes, Rect(0, 1, 1, k, 0, 0), Found(k, 0, k), Stairs(k + 1, t.width));
  }

  lemma StairsStart(width: int)
    requires width >= 1
    ensures Stairs(0, width) == Flat(width) && Units(0) == []
  {}

  lemma UnitsGrow(k: nat)
    ensures Units(k + 1) == Units(k) + [Rect(0, 1, 1, k, 0, 0)]
  {}

  lemma {:induction false} StairsAreReached(k: nat, t: Target, numNodes: nat)
    requires 1 <= numNodes < t.width && k <= numNodes && t.height >= 1
    requires t.align >= 1 && numNodes - 1 + t.align <= t.width
    ensures Greedy(Flat(t.width), t, numNodes, Units(k), Stairs(k, t.width))
  {
    hide Greedy, Outcome, Stairs, Units;
    if k == 0 {
      StairsStart(t.width);
      EmptyRun(Flat(t.width), t, numNodes);
    } else {
      StairsAreReached(k - 1, t, numNodes);
      UnitOnStairs(k - 1, t, numNodes);
      UnitsGrow(k - 1);
      GreedyStep(Flat(t.width), t, numNodes, Units(k - 1), Stairs(k - 1, t.width), Rect(0, 1, 1, k - 1, 0, 0),
          Stairs(k, t.width));
    }
  }

  lemma AlignedAtLeast(w: int, a: int)
    requires w >= 1 && a >= 1
    ensures Aligned(w, a) >= a
  {
    DividesAtMost(a, Aligned(w, a));
  }

  /** A refusal for lack of nodes needs more columns than nodes; on a target one row high the
      refused box must also find room on the floor beside them. */
  lemma RunningOutNeedsRoom(t: Target, numNodes: nat, run: seq<Rect>, s: Sky, r: Rect, best: Found)
    requires t.width >= 1 && t.align >= 1 && RunsOut(t, numNodes, run, s, r, best)
    ensures t.height >= 1 && numNodes < t.width && (t.height == 1 ==> numNodes + t.align <= t.width)
  {
    hide Greedy, SkyOk, IsBest, IsBestColumn, FloorLast;
    FlatIsSafe(t.width, 0);
    GreedyKeepsSky(Flat(t.width), t, numNodes, run, s);
    OneColumnEach(s, t.width, |s| - 1);
    var w := Aligned(r.w, t.align);
    BestIsBestColumn(s, t, r.w, r.h, best);
    BestIsSupported(s, t, r.w, r.h, best);
    SpanInside(s, t.width, best.node, best.x, w);
    if t.height == 1 {
      FloorPosition(s, t.width, best.node, best.x, w);
      OneColumnEach(s, t.width, |s| - 2);
      AlignedAtLeast(r.w, t.align);
    }
  }

  lemma FloorPosition(s: Sky, width: int, i: nat, x: int, w: int)
    requires SpanOf(s, width, i, x, w) && FloorLast(s) && IsMaxHeight(s, x, x + w, 0)
    ensures |s| >= 2 && s[|s| - 2].x <= x
  {
    HeightOfStep(s, width, i, x);
  }

  /** Exactly when rounding widths fails to keep the packer from running out of nodes, under
      either heuristic: when there are fewer nodes than columns and the target has a second row,
      or its only row has room for a rounded unit box beside one box per node. With a node per
      column nothing is rounded. */
  lemma CanRunOutIff(width: int, height: int, numNodes: nat, heuristic: Heuristic)
    requires width >= 1 && numNodes >= 1
    ensures CanRunOut(width, height, numNodes, heuristic) <==>
              (height >= 2 && numNodes < width) || (height == 1 && numNodes + AlignFor(width, numNodes) <= width)
    ensures AlignFor(width, numNodes) == 1 <==> numNodes >= width
  {
    hide Greedy, SkyOk, IsBestColumn, Stairs, AlignFor, Units;
    AlignIsLeastCover(width, numNodes, 1);
    var t := DefaultTarget(width, height, numNodes, heuristic);
    if (height >= 2 && numNodes < width) || (height == 1 && numNodes + t.align <= width) {
      var best := StairsChoice(numNodes, width, t.align);
      AlignFits(width, numNodes);
      StairsAreReached(numNodes, t, numNodes);
      ChoiceOnStairs(numNodes, t);
      UnitsAreSmall(numNodes);
      assert RunsOut(t, numNodes, Units(numNodes), Stairs(numNodes, width), Rect(0, 1, 1, 0, 0, 0), best);
    }
    forall run, s, r, best | RunsOut(t, numNodes, run, s, r, best)
      ensures (height >= 2 && numNodes < width) || (height == 1 && numNodes + t.align <= width)
    {
      RunningOutNeedsRoom(t, numNodes, run, s, r, best);
    }
  }

  lemma UnitsAreSmall(k: nat)
    ensures forall q <- Units(k) :: q.w == 1 && q.h == 1
  {}
}
