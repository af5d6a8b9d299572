/** Without alignment the skyline is exactly the outline of the boxes, and every box rests on
    another one or on the floor. */
module Support {
  import opened Skyline
  import opened Placement
  import opened BestPosition
  import opened Floor

  predicate Covers(b: Box, c: int) {
    b.x <= c < b.x + b.w
  }

  /** The greatest top of the boxes over a column, or the floor. */
  function TopOver(placed: seq<Box>, c: int): int {
    if placed == [] then 0
    else
      var n := |placed| - 1;
      var below := TopOver(placed[..n], c);
      if Covers(placed[n], c) then Max(below, placed[n].y + placed[n].h) else below
  }

  lemma {:induction false} TopOverIsGreatest(placed: seq<Box>, c: int)
    ensures forall b :: b in placed && Covers(b, c) ==> b.y + b.h <= TopOver(placed, c)
    ensures TopOver(placed, c) == 0 || exists b :: b in placed && Covers(b, c) && b.y + b.h == TopOver(placed, c)
    ensures TopOver(placed, c) >= 0
    decreases |placed|
  {
    if placed != [] {
      var n := |placed| - 1;
      TopOverIsGreatest(placed[..n], c);
      assert placed == placed[..n] + [placed[n]];
    }
  }

  /** The skyline is nowhere above the boxes: over each column it is at their greatest top. */
  ghost predicate Tight(placed: seq<Box>, s: Sky, width: int)
    requires SkyOk(s, width)
  {
    forall c :: 0 <= c < width ==> Height(s, c) == TopOver(placed, c)
  }

  /** The box lies on the floor, or on top of an earlier box that shares a column with it. */
  ghost predicate RestsOn(before: seq<Box>, b: Box) {
    b.y == 0 || exists a, c :: a in before && Covers(a, c) && Covers(b, c) && a.y + a.h == b.y
  }

  ghost predicate AllRest(placed: seq<Box>) {
    forall k :: 0 <= k < |placed| ==> RestsOn(placed[..k], placed[k])
  }

  ghost predicate Settled(placed: seq<Box>, s: Sky, width: int) {
    SkyOk(s, width) && Tight(placed, s, width) && AllRest(placed)
  }

  lemma FlatIsSettled(width: int)
    requires width >= 1
    ensures Settled([], [Step(0, 0), Step(width, 0x4000_0000)], width)
  {}

  lemma TopOverAppend(placed: seq<Box>, b: Box, c: int)
    ensures TopOver(placed + [b], c) ==
              if Covers(b, c) then Max(TopOver(placed, c), b.y + b.h) else TopOver(placed, c)
  {
    assert (placed + [b])[..|placed|] == placed;
  }

  lemma AllRestAppend(placed: seq<Box>, b: Box)
    requires AllRest(placed) && RestsOn(placed, b)
    ensures AllRest(placed + [b])
  {
    var all := placed + [b];
    forall k | 0 <= k < |all|
      ensures RestsOn(all[..k], all[k])
    {
      assert all[..k] == if k < |placed| then placed[..k] else placed;
    }
  }

  /** A box at its best position rests on what it finds. */
  lemma BestRests(s: Sky, t: Target, placed: seq<Box>, w: int, h: int, r: Found)
    requires SkyOk(s, t.width) && t.align == 1 && w > 0 && h > 0 && Tight(placed, s, t.width)
    requires IsBest(s, t, w, h, r) && r.Found?
    ensures RestsOn(placed, Box(r.x, r.y, w, h))
  {
    hide IsBest, Height, TopOver, SkyOk;
    BestIsSupported(s, t, w, h, r);
    SpanInside(s, t.width, r.node, r.x, w);
    Ascending(s, t.width, 0, r.node);
    if r.y != 0 {
      var c :| r.x <= c < r.x + w && Height(s, c) == r.y;
      TopOverIsGreatest(placed, c);
      var a :| a in placed && Covers(a, c) && a.y + a.h == TopOver(placed, c);
      assert Covers(Box(r.x, r.y, w, h), c);
    }
  }

  lemma BestKeepsTight(s: Sky, t: Target, placed: seq<Box>, w: int, h: int, r: Found)
    requires SkyOk(s, t.width) && t.align == 1 && w > 0 && h > 0 && Tight(placed, s, t.width)
    requires IsBest(s, t, w, h, r) && r.Found?
    ensures r.node + 1 < |s|
    ensures var after := Insert(s, r.node, r.x, r.y + h, r.x + w);
            SkyOk(after, t.width) && Tight(placed + [Box(r.x, r.y, w, h)], after, t.width)
  {
    hide IsBest, Height, TopOver, SkyOk, Insert, RaisedTo;
    var b := Box(r.x, r.y, w, h);
    BestIsPlaceable(s, t, w, h, r);
    BestIsSupported(s, t, w, h, r);
    RaisesOwnColumns(s, t, w, h, r);
    SentinelAtWidth(s, t.width);
    InsertKeepsSky(s, t.width, r.node, r.x, r.y + h, r.x + w);
    var after := Insert(s, r.node, r.x, r.y + h, r.x + w);
    forall c | 0 <= c < t.width
      ensures Height(after, c) == TopOver(placed + [b], c)
    {
      InsertHeights(s, t.width, r.node, r.x, r.y + h, r.x + w, c);
      TopOverAppend(placed, b, c);
      assert Height(s, c) == TopOver(placed, c);
    }
  }

  lemma BestKeepsSettled(s: Sky, t: Target, placed: seq<Box>, w: int, h: int, r: Found)
    requires Settled(placed, s, t.width) && t.align == 1 && w > 0 && h > 0
    requires IsBest(s, t, w, h, r) && r.Found?
    ensures r.node + 1 < |s|
    ensures Settled(placed + [Box(r.x, r.y, w, h)], Insert(s, r.node, r.x, r.y + h, r.x + w), t.width)
  {
    hide IsBest, SkyOk, Insert, Tight, AllRest, RestsOn;
    BestKeepsTight(s, t, placed, w, h, r);
    BestRests(s, t, placed, w, h, r);
    AllRestAppend(placed, Box(r.x, r.y, w, h));
  }
}
