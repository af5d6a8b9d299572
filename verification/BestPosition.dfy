/** Which position the packer must choose for a box, stated without its search. */
module BestPosition {
  import opened NumberTheory
  import opened Skyline

  datatype Heuristic = BottomLeft | BestFit

  datatype Target = Target(width: int, height: int, align: int, heuristic: Heuristic)

  /** A position, in the step of the given node; None when there is none. */
  datatype Found = None | Found(x: int, y: int, node: nat)

  /** Both passes start from a score that stands for "nothing found". */
  const NO_SCORE: int := 0x4000_0000

  datatype Score = Score(y: int, waste: int, x: int)

  predicate Better(a: Score, b: Score) {
    a.y < b.y || (a.y == b.y && (a.waste < b.waste || (a.waste == b.waste && a.x < b.x)))
  }

  const NOTHING := Score(NO_SCORE, NO_SCORE, 0)

  /** Widths are rounded up to a multiple of align before the search. */
  function Aligned(width: int, align: int): (a: int)
    requires align >= 1
    ensures width <= a < width + align && a % align == 0
  {
    AlignedIsMultiple(width + align - 1, align);
    width + align - 1 - (width + align - 1) % align
  }

  lemma AlignedIsMultiple(n: int, align: int)
    requires align >= 1
    ensures (n - n % align) % align == 0
  {
    assert n - n % align == align * (n / align);
    MultipleIsDivisible(align, n / align);
  }

  /** The box with its left edge at node i. */
  ghost predicate LeftAligned(s: Sky, width: int, w: int, i: nat) {
    i + 1 < |s| && s[i].x + w <= width
  }

  /** The box with its right edge at node k, which puts its left edge at x in step i. */
  ghost predicate RightAligned(s: Sky, w: int, k: nat, i: nat, x: int) {
    k < |s| && s[k].x >= w && x == s[k].x - w && i + 1 < |s| && s[i].x <= x < s[i + 1].x
  }

  ghost predicate Candidate(s: Sky, width: int, w: int, i: nat, x: int) {
    || (LeftAligned(s, width, w, i) && x == s[i].x)
    || exists k: nat :: RightAligned(s, w, k, i, x)
  }

  function ScoreAt(s: Sky, w: int, i: nat, x: int): Score
    requires |s| > 0 && x + w <= s[|s| - 1].x
  {
    var m := Measure(s, i, x, w);
    Score(m.y, m.waste, x)
  }

  ghost predicate InRange(s: Sky, w: int, x: int) {
    |s| > 0 && x + w <= s[|s| - 1].x
  }

  /** The lowest left-aligned position, and the leftmost of those. */
  ghost predicate IsBottomLeft(s: Sky, t: Target, w: int, r: Found)
    requires SkyOk(s, t.width)
  {
    match r
    case None => forall i: nat :: LeftAligned(s, t.width, w, i) ==> Measure(s, i, s[i].x, w).y >= NO_SCORE
    case Found(x, y, node) =>
      && LeftAligned(s, t.width, w, node) && x == s[node].x
      && y == Measure(s, node, x, w).y < NO_SCORE
      && (forall i: nat :: LeftAligned(s, t.width, w, i) ==>
            y <= Measure(s, i, s[i].x, w).y && (i < node ==> y < Measure(s, i, s[i].x, w).y))
  }

  /** The bottom-left choice among the nodes before the n-th. */
  ghost predicate BottomLeftUpTo(s: Sky, width: int, w: int, n: nat, r: Found)
    requires SkyOk(s, width)
  {
    && (r.Found? ==>
          && r.node < n && LeftAligned(s, width, w, r.node) && r.x == s[r.node].x
          && r.y == Measure(s, r.node, r.x, w).y)
    && LowestY(r) <= NO_SCORE && (r.Found? ==> r.y < NO_SCORE)
    && forall i: nat :: i < n && LeftAligned(s, width, w, i) ==>
         LowestY(r) <= Measure(s, i, s[i].x, w).y && (r.Found? && i < r.node ==> r.y < Measure(s, i, s[i].x, w).y)
  }

  function LowestY(r: Found): int {
    if r.Found? then r.y else NO_SCORE
  }

  lemma BottomLeftStart(s: Sky, width: int, w: int)
    requires SkyOk(s, width)
    ensures BottomLeftUpTo(s, width, w, 0, None)
  {}

  lemma BottomLeftStep(s: Sky, width: int, w: int, n: nat, r: Found)
    requires SkyOk(s, width) && BottomLeftUpTo(s, width, w, n, r) && LeftAligned(s, width, w, n)
    ensures var y := Measure(s, n, s[n].x, w).y;
            BottomLeftUpTo(s, width, w, n + 1, if y < LowestY(r) then Found(s[n].x, y, n) else r)
  {}

  lemma BottomLeftDone(s: Sky, t: Target, w: int, n: nat, r: Found)
    requires SkyOk(s, t.width) && BottomLeftUpTo(s, t.width, w, n, r)
    requires n < |s| && s[n].x + w > t.width
    ensures IsBottomLeft(s, t, w, r)
  {
    forall i: nat | n <= i
      ensures !LeftAligned(s, t.width, w, i)
    {
    }
  }

  ghost predicate Fitting(s: Sky, t: Target, w: int, height: int, i: nat, x: int)
    requires SkyOk(s, t.width)
  {
    && Candidate(s, t.width, w, i, x)
    && InRange(s, w, x)
    && ScoreAt(s, w, i, x).y + height <= t.height
  }

  /** Among the left- and right-aligned positions that fit below the top, the lowest; of
      those the one that wastes least; of those the leftmost. */
  ghost predicate IsBestFit(s: Sky, t: Target, w: int, height: int, r: Found)
    requires SkyOk(s, t.width)
  {
    match r
    case None => forall i: nat, x: int :: Fitting(s, t, w, height, i, x) ==> !Better(ScoreAt(s, w, i, x), NOTHING)
    case Found(x, y, node) =>
      && Fitting(s, t, w, height, node, x)
      && y == ScoreAt(s, w, node, x).y
      && Better(ScoreAt(s, w, node, x), NOTHING)
      && forall i: nat, z: int :: Fitting(s, t, w, height, i, z) ==>
          !Better(ScoreAt(s, w, i, z), ScoreAt(s, w, node, x))
  }

  /** The positions that the two passes have met: left-aligned ones before node n and
      right-aligned ones before node m. */
  ghost predicate Considered(s: Sky, width: int, w: int, n: nat, m: nat, i: nat, x: int) {
    || (i < n && LeftAligned(s, width, w, i) && x == s[i].x)
    || exists k: nat :: k < m && RightAligned(s, w, k, i, x)
  }

  ghost function ScoreOf(s: Sky, w: int, r: Found): Score
    requires r.Found? ==> InRange(s, w, r.x)
  {
    if r.Found? then ScoreAt(s, w, r.node, r.x) else NOTHING
  }

  ghost predicate BestFitUpTo(s: Sky, t: Target, w: int, height: int, n: nat, m: nat, r: Found)
    requires SkyOk(s, t.width)
  {
    && (r.Found? ==>
          && Considered(s, t.width, w, n, m, r.node, r.x) && InRange(s, w, r.x)
          && r.y == ScoreAt(s, w, r.node, r.x).y && r.y + height <= t.height
          && Better(ScoreAt(s, w, r.node, r.x), NOTHING))
    && forall i: nat, x: int :: Considered(s, t.width, w, n, m, i, x) && InRange(s, w, x) ==>
         ScoreAt(s, w, i, x).y + height <= t.height ==> !Better(ScoreAt(s, w, i, x), ScoreOf(s, w, r))
  }

  /** The better of the best so far and one more position. */
  ghost function Improve(s: Sky, t: Target, w: int, height: int, r: Found, i: nat, x: int): Found
    requires InRange(s, w, x) && (r.Found? ==> InRange(s, w, r.x))
  {
    var c := ScoreAt(s, w, i, x);
    if c.y + height <= t.height && Better(c, ScoreOf(s, w, r)) then Found(x, c.y, i) else r
  }

  lemma BestFitStart(s: Sky, t: Target, w: int, height: int)
    requires SkyOk(s, t.width)
    ensures BestFitUpTo(s, t, w, height, 0, 0, None)
  {}

  lemma LeftStep(s: Sky, t: Target, w: int, height: int, n: nat, r: Found)
    requires SkyOk(s, t.width) && BestFitUpTo(s, t, w, height, n, 0, r) && LeftAligned(s, t.width, w, n)
    ensures r.Found? ==> InRange(s, w, r.x) && r.x < s[n].x
    ensures BestFitUpTo(s, t, w, height, n + 1, 0, Improve(s, t, w, height, r, n, s[n].x))
  {
    hide Measure;
    forall i: nat, x: int | Considered(s, t.width, w, n + 1, 0, i, x)
      ensures Considered(s, t.width, w, n, 0, i, x) || (i == n && x == s[n].x)
    {}
  }

  lemma LeftDone(s: Sky, t: Target, w: int, height: int, n: nat, r: Found)
    requires SkyOk(s, t.width) && BestFitUpTo(s, t, w, height, n, 0, r)
    requires n < |s| && s[n].x + w > t.width
    ensures BestFitUpTo(s, t, w, height, |s|, 0, r)
  {
    hide Measure;
    forall i: nat, x: int | Considered(s, t.width, w, |s|, 0, i, x)
      ensures Considered(s, t.width, w, n, 0, i, x)
    {}
  }

  lemma RightStep(s: Sky, t: Target, w: int, height: int, k: nat, i: nat, x: int, r: Found)
    requires SkyOk(s, t.width) && BestFitUpTo(s, t, w, height, |s|, k, r) && RightAligned(s, w, k, i, x)
    ensures InRange(s, w, x) && (r.Found? ==> InRange(s, w, r.x))
    ensures BestFitUpTo(s, t, w, height, |s|, k + 1, Improve(s, t, w, height, r, i, x))
  {
    hide Measure;
    assert s[k].x <= s[|s| - 1].x;
    forall j: nat, z: int | Considered(s, t.width, w, |s|, k + 1, j, z)
      ensures Considered(s, t.width, w, |s|, k, j, z) || (j == i && z == x)
    {
      if !Considered(s, t.width, w, |s|, k, j, z) {
        assert RightAligned(s, w, k, j, z);
        StepUnique(s, t.width, i, j, x);
      }
    }
  }

  lemma RightSkip(s: Sky, t: Target, w: int, height: int, k: nat, r: Found)
    requires SkyOk(s, t.width) && BestFitUpTo(s, t, w, height, |s|, k, r) && k < |s| && s[k].x < w
    ensures BestFitUpTo(s, t, w, height, |s|, k + 1, r)
  {
    hide Measure;
    forall j: nat, z: int | Considered(s, t.width, w, |s|, k + 1, j, z)
      ensures Considered(s, t.width, w, |s|, k, j, z)
    {}
  }

  lemma BestFitDone(s: Sky, t: Target, w: int, height: int, r: Found)
    requires SkyOk(s, t.width) && BestFitUpTo(s, t, w, height, |s|, |s|, r)
    ensures IsBestFit(s, t, w, height, r)
  {
    hide Measure;
    forall i: nat, x: int | Candidate(s, t.width, w, i, x)
      ensures Considered(s, t.width, w, |s|, |s|, i, x)
    {}
  }

  ghost predicate IsBest(s: Sky, t: Target, width: int, height: int, r: Found)
    requires SkyOk(s, t.width) && t.align >= 1
  {
    var w := Aligned(width, t.align);
    if w > t.width || height > t.height then r == None
    else if t.heuristic == BottomLeft then IsBottomLeft(s, t, w, r)
    else IsBestFit(s, t, w, height, r)
  }

  lemma CandidateInSpan(s: Sky, width: int, w: int, i: nat, x: int)
    requires SkyOk(s, width) && w > 0 && Candidate(s, width, w, i, x)
    ensures SpanOf(s, width, i, x, w) && InRange(s, w, x)
  {
    if LeftAligned(s, width, w, i) && x == s[i].x {
    } else {
      var k: nat :| RightAligned(s, w, k, i, x);
      assert s[k].x <= s[|s| - 1].x;
    }
  }

  /** A best position is at or above the skyline over the whole aligned span, which lies
      in the target. */
  lemma BestIsSupported(s: Sky, t: Target, width: int, height: int, r: Found)
    requires SkyOk(s, t.width) && t.align >= 1 && width > 0
    requires IsBest(s, t, width, height, r) && r.Found?
    ensures SpanOf(s, t.width, r.node, r.x, Aligned(width, t.align)) && r.y >= 0
    ensures IsMaxHeight(s, r.x, r.x + Aligned(width, t.align), r.y)
  {
    var w := Aligned(width, t.align);
    CandidateInSpan(s, t.width, w, r.node, r.x);
    MeasureIsMax(s, t.width, r.node, r.x, w);
  }

  /** The step of a column is unique. */
  lemma StepUnique(s: Sky, width: int, i: nat, j: nat, x: int)
    requires SkyOk(s, width) && i + 1 < |s| && j + 1 < |s|
    requires s[i].x <= x < s[i + 1].x && s[j].x <= x < s[j + 1].x
    ensures i == j
  {}

  /** The choice leaves no freedom: any two best positions are the same. */
  lemma BestIsUnique(s: Sky, t: Target, width: int, height: int, r1: Found, r2: Found)
    requires SkyOk(s, t.width) && t.align >= 1 && width > 0
    requires IsBest(s, t, width, height, r1) && IsBest(s, t, width, height, r2)
    ensures r1 == r2
  {
    var w := Aligned(width, t.align);
    if w <= t.width && height <= t.height && t.heuristic == BestFit && r1.Found? && r2.Found? {
      CandidateInSpan(s, t.width, w, r1.node, r1.x);
      CandidateInSpan(s, t.width, w, r2.node, r2.x);
      assert r1.x == r2.x;
      StepUnique(s, t.width, r1.node, r2.node, r1.x);
    }
  }
}
