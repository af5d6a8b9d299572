/** Packing an array of rectangles: sorting, packing one by one, and restoring the order. */
module PackRects {
  import opened Skyline
  import opened Placement
  import opened BestPosition
  import opened Columns
  import opened Support
  import opened RectPack

  datatype Rect = Rect(id: int, w: int, h: int, x: int, y: int, wasPacked: int)

  // ------------------------------------------------------------------------ sorting

  type Comparator = (Rect, Rect) -> int

  function HeightCompare(p: Rect, q: Rect): int {
    if p.h > q.h then -1
    else if p.h < q.h then 1
    else if p.w > q.w then -1
    else if p.w < q.w then 1 else 0
  }

  function OriginalOrder(p: Rect, q: Rect): int {
    if p.wasPacked < q.wasPacked then -1 else if p.wasPacked > q.wasPacked then 1 else 0
  }

  ghost predicate IsOrder(cmp: Comparator) {
    && (forall a, b :: cmp(a, b) <= 0 || cmp(b, a) <= 0)
    && (forall a, b, c :: cmp(a, b) <= 0 && cmp(b, c) <= 0 ==> cmp(a, c) <= 0)
  }

  ghost predicate SortedBy(cmp: Comparator, s: seq<Rect>) {
    forall i, j :: 0 <= i < j < |s| ==> cmp(s[i], s[j]) <= 0
  }

  function InsertInto(cmp: Comparator, r: Rect, s: seq<Rect>): seq<Rect> {
    if s == [] || cmp(r, s[0]) <= 0 then [r] + s else [s[0]] + InsertInto(cmp, r, s[1..])
  }

  function Arrange(cmp: Comparator, s: seq<Rect>): seq<Rect> {
    if s == [] then [] else InsertInto(cmp, s[0], Arrange(cmp, s[1..]))
  }

  lemma {:induction false} InsertIntoPermutes(cmp: Comparator, r: Rect, s: seq<Rect>)
    ensures multiset(InsertInto(cmp, r, s)) == multiset{r} + multiset(s)
  {
    if s == [] || cmp(r, s[0]) <= 0 {
    } else {
      InsertIntoPermutes(cmp, r, s[1..]);
      assert s == [s[0]] + s[1..];
    }
  }

  lemma SortedNone(cmp: Comparator)
    ensures SortedBy(cmp, [])
  {}

  lemma SortedCons(cmp: Comparator, r: Rect, s: seq<Rect>)
    requires SortedBy(cmp, s) && forall q <- s :: cmp(r, q) <= 0
    ensures SortedBy(cmp, [r] + s)
  {}

  lemma SortedTail(cmp: Comparator, s: seq<Rect>)
    requires SortedBy(cmp, s) && s != []
    ensures SortedBy(cmp, s[1..]) && forall q <- s[1..] :: cmp(s[0], q) <= 0
  {}

  lemma {:induction false} InsertIntoSorted(cmp: Comparator, r: Rect, s: seq<Rect>)
    requires IsOrder(cmp) && SortedBy(cmp, s)
    ensures SortedBy(cmp, InsertInto(cmp, r, s))
  {
    hide SortedBy;
    if s == [] {
      SortedCons(cmp, r, s);
    } else {
      SortedTail(cmp, s);
      if cmp(r, s[0]) <= 0 {
        forall q | q in s
          ensures cmp(r, q) <= 0
        {
          assert q == s[0] || q in s[1..];
        }
        SortedCons(cmp, r, s);
      } else {
        var t := InsertInto(cmp, r, s[1..]);
        InsertIntoSorted(cmp, r, s[1..]);
        InsertIntoPermutes(cmp, r, s[1..]);
        forall q | q in t
          ensures cmp(s[0], q) <= 0
        {
          assert q in multiset(t);
        }
        SortedCons(cmp, s[0], t);
      }
    }
  }

  lemma {:induction false} ArrangeSorts(cmp: Comparator, s: seq<Rect>)
    requires IsOrder(cmp)
    ensures multiset(Arrange(cmp, s)) == multiset(s) && SortedBy(cmp, Arrange(cmp, s))
  {
    hide SortedBy, IsOrder, InsertInto;
    if s == [] {
      SortedNone(cmp);
    } else {
      ArrangeSorts(cmp, s[1..]);
      InsertIntoSorted(cmp, s[0], Arrange(cmp, s[1..]));
      InsertIntoPermutes(cmp, s[0], Arrange(cmp, s[1..]));
      assert s == [s[0]] + s[1..];
    }
  }

  /** What qsort promises, whatever it does with equal elements: callers see only that the
      array is an ordered permutation of itself. */
  method Qsort(rects: array<Rect>, cmp: Comparator)
    requires IsOrder(cmp)
    modifies rects
    ensures multiset(rects[..]) == multiset(old(rects[..])) && SortedBy(cmp, rects[..])
  {
    var s := Arrange(cmp, rects[..]);
    ArrangeSorts(cmp, rects[..]);
    assert |s| == |multiset(s)| == |multiset(rects[..])| == rects.Length;
    forall i | 0 <= i < rects.Length {
      rects[i] := s[i];
    }
    assert rects[..] == s;
  }

  // ------------------------------------------------------------- restoring the order

  ghost predicate DistinctKeys(s: seq<Rect>) {
    forall i, j :: 0 <= i < j < |s| ==> s[i].wasPacked != s[j].wasPacked
  }

  lemma {:induction false} KeyOnce(s: seq<Rect>, r: Rect)
    requires DistinctKeys(s)
    ensures multiset(s)[r] <= 1
  {
    if s == [] {
    } else {
      assert s == [s[0]] + s[1..];
      KeyOnce(s[1..], r);
      forall k | 0 <= k < |s| - 1
        ensures s[1..][k] != s[0]
      {}
      assert s[0] == r ==> r !in s[1..];
    }
  }

  lemma Twice(s: seq<Rect>, i: nat, j: nat)
    requires i < j < |s| && s[i] == s[j]
    ensures multiset(s)[s[i]] >= 2
  {
    assert s == s[..j] + s[j..];
    assert s[..j][i] == s[i] && s[j..][0] == s[j];
  }

  lemma PermutationKeepsKeys(a: seq<Rect>, b: seq<Rect>)
    requires multiset(a) == multiset(b) && DistinctKeys(a)
    ensures DistinctKeys(b)
  {
    forall i, j | 0 <= i < j < |b|
      ensures b[i].wasPacked != b[j].wasPacked
    {
      assert b[i] in multiset(a) && b[j] in multiset(a);
      KeyOnce(a, b[i]);
      if b[i] == b[j] {
        Twice(b, i, j);
      }
    }
  }

  /** Distinct keys below the length, in increasing order, are the positions. */
  lemma SortedKeysArePositions(s: seq<Rect>, i: nat)
    requires SortedBy(OriginalOrder, s) && DistinctKeys(s) && i < |s|
    requires forall j :: 0 <= j < |s| ==> 0 <= s[j].wasPacked < |s|
    ensures s[i].wasPacked == i
  {
    KeyAtLeast(s, i);
    KeyAtMost(s, i);
  }

  lemma {:induction false} KeyAtLeast(s: seq<Rect>, i: nat)
    requires SortedBy(OriginalOrder, s) && DistinctKeys(s) && i < |s|
    requires forall j :: 0 <= j < |s| ==> 0 <= s[j].wasPacked
    ensures s[i].wasPacked >= i
  {
    if i > 0 {
      KeyAtLeast(s, i - 1);
      assert OriginalOrder(s[i - 1], s[i]) <= 0;
    }
  }

  lemma {:induction false} KeyAtMost(s: seq<Rect>, i: nat)
    requires SortedBy(OriginalOrder, s) && DistinctKeys(s) && i < |s|
    requires forall j :: 0 <= j < |s| ==> s[j].wasPacked < |s|
    ensures s[i].wasPacked <= i
    decreases |s| - i
  {
    if i + 1 < |s| {
      KeyAtMost(s, i + 1);
      assert OriginalOrder(s[i], s[i + 1]) <= 0;
    }
  }

  // ------------------------------------------------------------------ packed boxes

  predicate Refused(r: Rect) {
    r.x == 0x7fff_ffff && r.y == 0x7fff_ffff
  }

  predicate IsPlaced(r: Rect) {
    r.w != 0 && r.h != 0 && !Refused(r)
  }

  function BoxOf(r: Rect): Box {
    Box(r.x, r.y, r.w, r.h)
  }

  /** The boxes of the rectangles that take space and were not refused. */
  function Boxes(rs: seq<Rect>): seq<Box> {
    if rs == [] then []
    else
      var n := |rs| - 1;
      Boxes(rs[..n]) + BoxOrNone(rs[n])
  }

  function BoxOrNone(r: Rect): seq<Box> {
    if IsPlaced(r) then [BoxOf(r)] else []
  }

  lemma EmptyRun(s: Sky, t: Target, numNodes: nat)
    ensures Greedy(s, t, numNodes, [], s) && Boxes([]) == []
  {}

  predicate SameInput(p: Rect, q: Rect) {
    p.id == q.id && p.w == q.w && p.h == q.h && p.wasPacked == q.wasPacked
  }

  lemma {:induction false} PlacedHasBox(rs: seq<Rect>, i: nat)
    requires i < |rs| && IsPlaced(rs[i])
    ensures BoxOf(rs[i]) in Boxes(rs)
    decreases |rs|
  {
    var n := |rs| - 1;
    if i < n {
      PlacedHasBox(rs[..n], i);
    }
  }

  ghost predicate AllDisjoint(bs: seq<Box>) {
    forall k, l :: 0 <= k < l < |bs| ==> Disjoint(bs[k], bs[l])
  }

  /** No two rectangles of the array that were placed overlap. */
  ghost predicate NoOverlap(rs: seq<Rect>) {
    forall i, j :: 0 <= i < j < |rs| && IsPlaced(rs[i]) && IsPlaced(rs[j]) ==> Disjoint(BoxOf(rs[i]), BoxOf(rs[j]))
  }

  lemma {:induction false} DisjointBoxesNoOverlap(rs: seq<Rect>)
    requires AllDisjoint(Boxes(rs))
    ensures NoOverlap(rs)
    decreases |rs|
  {
    if rs == [] {
    } else {
      var n := |rs| - 1;
      var front := Boxes(rs[..n]);
      assert forall k :: 0 <= k < |front| ==> Boxes(rs)[k] == front[k];
      DisjointBoxesNoOverlap(rs[..n]);
      forall i | 0 <= i < n && IsPlaced(rs[i]) && IsPlaced(rs[n])
        ensures Disjoint(BoxOf(rs[i]), BoxOf(rs[n]))
      {
        PlacedHasBox(rs[..n], i);
        var k :| 0 <= k < |front| && front[k] == BoxOf(rs[i]);
        assert Boxes(rs)[|front|] == BoxOf(rs[n]);
      }
    }
  }

  // ------------------------------------------------------------------- greedy runs

  /** What packing one rectangle must do: an empty one is put at the origin; any other one goes
      to the best position when that lies below the top and a node is left, and is refused
      otherwise. */
  ghost predicate Outcome(s: Sky, t: Target, numNodes: nat, r: Rect, s2: Sky) {
    if r.w == 0 || r.h == 0 then r.x == 0 && r.y == 0 && s2 == s
    else
      && SkyOk(s, t.width) && t.align >= 1
      && exists best :: IsBestColumn(s, t, r.w, r.h, best) && PlacedAt(s, t, numNodes, r, best, s2)
  }

  ghost predicate PlacedAt(s: Sky, t: Target, numNodes: nat, r: Rect, best: Found, s2: Sky) {
    if best.Found? && best.y + r.h <= t.height && |s| < numNodes + 2 then
      r.x == best.x && r.y == best.y && best.node + 1 < |s| && s2 == Insert(s, best.node, r.x, r.y + r.h, r.x + r.w)
    else Refused(r) && s2 == s
  }

  /** The rectangles were packed one after the other in this order. */
  ghost predicate Greedy(s: Sky, t: Target, numNodes: nat, rs: seq<Rect>, s2: Sky) {
    if rs == [] then s2 == s
    else
      var n := |rs| - 1;
      exists mid :: Greedy(s, t, numNodes, rs[..n], mid) && Outcome(mid, t, numNodes, rs[n], s2)
  }

  lemma GreedyStep(s: Sky, t: Target, numNodes: nat, rs: seq<Rect>, mid: Sky, r: Rect, s2: Sky)
    requires Greedy(s, t, numNodes, rs, mid) && Outcome(mid, t, numNodes, r, s2)
    ensures Greedy(s, t, numNodes, rs + [r], s2) && Boxes(rs + [r]) == Boxes(rs) + BoxOrNone(r)
  {
    assert (rs + [r])[..|rs|] == rs;
  }

  /** Sizes and their order decide everything: two runs over the same input end alike. */
  lemma {:induction false} GreedyIsDeterministic(s: Sky, t: Target, numNodes: nat, a: seq<Rect>, b: seq<Rect>,
                                                 s1: Sky, s2: Sky)
    requires Greedy(s, t, numNodes, a, s1) && Greedy(s, t, numNodes, b, s2)
    requires |a| == |b| && forall k :: 0 <= k < |a| ==> SameInput(a[k], b[k]) && a[k].w >= 0
    ensures a == b && s1 == s2
    decreases |a|
  {
    hide Outcome;
    if a != [] {
      var n := |a| - 1;
      var mid1 :| Greedy(s, t, numNodes, a[..n], mid1) && Outcome(mid1, t, numNodes, a[n], s1);
      var mid2 :| Greedy(s, t, numNodes, b[..n], mid2) && Outcome(mid2, t, numNodes, b[n], s2);
      GreedyIsDeterministic(s, t, numNodes, a[..n], b[..n], mid1, mid2);
      OutcomeIsDeterministic(mid1, t, numNodes, a[n], b[n], s1, s2);
    }
  }

  lemma OutcomeIsDeterministic(s: Sky, t: Target, numNodes: nat, a: Rect, b: Rect, s1: Sky, s2: Sky)
    requires Outcome(s, t, numNodes, a, s1) && Outcome(s, t, numNodes, b, s2)
    requires SameInput(a, b) && a.w >= 0
    ensures a == b && s1 == s2
  {
    hide IsBestColumn, Insert, SkyOk;
    if a.w != 0 && a.h != 0 {
      var r1 :| IsBestColumn(s, t, a.w, a.h, r1) && PlacedAt(s, t, numNodes, a, r1, s1);
      var r2 :| IsBestColumn(s, t, b.w, b.h, r2) && PlacedAt(s, t, numNodes, b, r2, s2);
      BestColumnIsUnique(s, t, a.w, a.h, r1, r2);
    }
  }

  // --------------------------------------------------------------------- the method

  function Numbered(rs: seq<Rect>): (r: seq<Rect>)
    ensures |r| == |rs|
  {
    seq(|rs|, i requires 0 <= i < |rs| => rs[i].(wasPacked := i))
  }

  method NumberRects(rects: array<Rect>)
    modifies rects
    ensures rects[..] == Numbered(old(rects[..]))
  {
    for i := 0 to rects.Length
      invariant forall j :: 0 <= j < i ==> rects[j] == old(rects[j]).(wasPacked := j)
      invariant forall j :: i <= j < rects.Length ==> rects[j] == old(rects[j])
    {
      rects[i] := rects[i].(wasPacked := i);
    }
  }

  method PackOne(ctx: Context, r: Rect) returns (q: Rect)
    requires ctx.Valid() && r.w >= 0 && r.h >= 0
    modifies ctx`activeHead, ctx`freeHead, ctx`active, ctx`free, ctx`placed, ctx.Nodes()
    ensures ctx.Valid() && ctx.Nodes() == old(ctx.Nodes())
    ensures q == r.(x := q.x, y := q.y)
    ensures ctx.placed == old(ctx.placed) + BoxOrNone(q)
    ensures Outcome(old(ctx.Sky()), ctx.Settings(), ctx.numNodes, q, ctx.Sky())
    ensures ctx.align == 1 && old(ctx.IsSettled()) ==> ctx.IsSettled()
  {
    hide Settled, Seg, Distinct, Safe, SkyOf, Insert, IsBest, IsBestColumn, CanFit, CanFitLow, SkyOk;
    SafeSky(ctx);
    if r.w == 0 || r.h == 0 {
      q := r.(x := 0, y := 0);
    } else {
      var packed, x, y, best := ctx.PackRectangle(r.w, r.h);
      q := if packed then r.(x := x, y := y) else r.(x := MAXVAL, y := MAXVAL);
      assert PlacedAt(old(ctx.Sky()), ctx.Settings(), ctx.numNodes, q, best, ctx.Sky());
    }
  }

  lemma SafeSky(ctx: Context)
    requires ctx.Valid()
    ensures SkyOk(ctx.Sky(), ctx.width) && ctx.align >= 1 && |ctx.Sky()| + |ctx.free| == ctx.numNodes + 2
  {}

  /** Gives every rectangle its place in turn: an empty one needs none, and one that finds no
      place is marked as refused. */
  method PackAll(ctx: Context, rects: array<Rect>)
    requires ctx.Valid() && forall i :: 0 <= i < rects.Length ==> rects[i].w >= 0 && rects[i].h >= 0
    modifies rects, ctx`activeHead, ctx`freeHead, ctx`active, ctx`free, ctx`placed, ctx.Nodes()
    ensures ctx.Valid() && ctx.Nodes() == old(ctx.Nodes())
    ensures ctx.placed == old(ctx.placed) + Boxes(rects[..])
    ensures Greedy(old(ctx.Sky()), ctx.Settings(), ctx.numNodes, rects[..], ctx.Sky())
    ensures forall i :: 0 <= i < rects.Length ==> SameInput(rects[i], old(rects[i]))
    ensures ctx.align == 1 && old(ctx.IsSettled()) ==> ctx.IsSettled()
  {
    hide Settled, Seg, Distinct, Safe, SkyOf, Outcome, SkyOk, Boxes, Greedy;
    EmptyRun(ctx.Sky(), ctx.Settings(), ctx.numNodes);
    for i := 0 to rects.Length
      invariant ctx.Valid() && ctx.Nodes() == old(ctx.Nodes())
      invariant ctx.placed == old(ctx.placed) + Boxes(rects[..i])
      invariant Greedy(old(ctx.Sky()), ctx.Settings(), ctx.numNodes, rects[..i], ctx.Sky())
      invariant forall j :: 0 <= j < i ==> SameInput(rects[j], old(rects[j]))
      invariant forall j :: i <= j < rects.Length ==> rects[j] == old(rects[j])
      invariant ctx.align == 1 && old(ctx.IsSettled()) ==> ctx.IsSettled()
    {
      ghost var before, mid := rects[..i], ctx.Sky();
      var q := PackOne(ctx, rects[i]);
      GreedyStep(old(ctx.Sky()), ctx.Settings(), ctx.numNodes, before, mid, q, ctx.Sky());
      SetOne(ctx, rects, i, q);
      assert rects[..i + 1] == before + [q];
    }
    assert rects[..] == rects[..rects.Length];
  }

  method SetOne(ghost ctx: Context, rects: array<Rect>, i: nat, q: Rect)
    requires ctx.Valid() && i < rects.Length
    modifies rects
    ensures rects[..] == old(rects[..])[i := q]
    ensures ctx.Valid() && ctx.Sky() == old(ctx.Sky()) && (old(ctx.IsSettled()) ==> ctx.IsSettled())
  {
    rects[i] := q;
  }

  method SetFlags(rects: array<Rect>) returns (all: int)
    modifies rects
    ensures forall i :: 0 <= i < rects.Length ==>
        rects[i] == old(rects[i]).(wasPacked := if Refused(old(rects[i])) then 0 else 1)
    ensures all == if forall i :: 0 <= i < rects.Length ==> !Refused(rects[i]) then 1 else 0
  {
    all := 1;
    for i := 0 to rects.Length
      invariant forall j :: 0 <= j < i ==>
          rects[j] == old(rects[j]).(wasPacked := if Refused(old(rects[j])) then 0 else 1)
      invariant forall j :: i <= j < rects.Length ==> rects[j] == old(rects[j])
      invariant all == if forall j :: 0 <= j < i ==> !Refused(rects[j]) then 1 else 0
    {
      rects[i] := rects[i].(wasPacked := if Refused(rects[i]) then 0 else 1);
      if rects[i].wasPacked == 0 {
        all := 0;
      }
    }
  }

  ghost predicate KeysAreIndices(s: seq<Rect>) {
    DistinctKeys(s) && forall k :: 0 <= k < |s| ==> 0 <= s[k].wasPacked < |s|
  }

  lemma ComparatorsOrder()
    ensures IsOrder(HeightCompare) && IsOrder(OriginalOrder)
  {
    var byHeight: Comparator, byKey: Comparator := HeightCompare, OriginalOrder;
    assert forall a, b :: byHeight(a, b) == HeightCompare(a, b) && byKey(a, b) == OriginalOrder(a, b);
  }

  /** Sorting by size keeps, in each rectangle, the position it came from. */
  lemma SortedKnowsOrigin(was: seq<Rect>, order: seq<Rect>)
    requires multiset(order) == multiset(Numbered(was))
    ensures |order| == |was| && KeysAreIndices(order)
    ensures forall k :: 0 <= k < |order| ==> SameSize(order[k], was[order[k].wasPacked])
  {
    assert |order| == |multiset(order)| == |multiset(Numbered(was))| == |was|;
    PermutationKeepsKeys(Numbered(was), order);
    forall k | 0 <= k < |order|
      ensures 0 <= order[k].wasPacked < |was| && SameSize(order[k], was[order[k].wasPacked])
    {
      assert order[k] in multiset(Numbered(was));
    }
  }

  predicate SameSize(p: Rect, q: Rect) {
    p.id == q.id && p.w == q.w && p.h == q.h
  }

  /** Sorting by the kept positions undoes the first sort. */
  lemma SortingBackRestores(order: seq<Rect>, back: seq<Rect>)
    requires multiset(back) == multiset(order) && KeysAreIndices(order) && SortedBy(OriginalOrder, back)
    ensures |back| == |order| && forall k :: 0 <= k < |order| ==> back[order[k].wasPacked] == order[k]
    ensures forall i :: 0 <= i < |back| ==> back[i].wasPacked == i && back[i] in order
  {
    assert |back| == |multiset(back)| == |multiset(order)| == |order|;
    PermutationKeepsKeys(order, back);
    forall j | 0 <= j < |back|
      ensures 0 <= back[j].wasPacked < |back| && back[j] in order
    {
      assert back[j] in multiset(order);
    }
    forall i | 0 <= i < |back|
      ensures back[i].wasPacked == i
    {
      SortedKeysArePositions(back, i);
    }
    forall k | 0 <= k < |order|
      ensures back[order[k].wasPacked] == order[k]
    {
      assert order[k] in multiset(back);
    }
  }

  lemma SortedSizes(was: seq<Rect>, sorted: seq<Rect>)
    requires multiset(sorted) == multiset(Numbered(was))
    requires forall i :: 0 <= i < |was| ==> was[i].w >= 0 && was[i].h >= 0
    ensures forall i :: 0 <= i < |sorted| ==> sorted[i].w >= 0 && sorted[i].h >= 0
  {
    SortedKnowsOrigin(was, sorted);
  }

  ghost predicate BySize(s: seq<Rect>) {
    forall k, l :: 0 <= k < l < |s| ==> s[k].h > s[l].h || (s[k].h == s[l].h && s[k].w >= s[l].w)
  }

  ghost predicate HasKey(s: seq<Rect>, i: int) {
    exists k :: 0 <= k < |s| && s[k].wasPacked == i
  }

  /** What a call promises about the array, in terms of the order in which it packed. */
  ghost predicate Packed(was: seq<Rect>, order: seq<Rect>, now: seq<Rect>) {
    && |now| == |order| == |was| && KeysAreIndices(order) && BySize(order)
    && (forall i :: 0 <= i < |now| ==> SameSize(now[i], was[i]) && HasKey(order, i))
    && (forall i :: 0 <= i < |now| ==> now[i].wasPacked == if Refused(now[i]) then 0 else 1)
    && (forall k :: 0 <= k < |order| ==>
        now[order[k].wasPacked] == order[k].(wasPacked := now[order[k].wasPacked].wasPacked))
  }

  lemma PackedIsSorted(was: seq<Rect>, sorted: seq<Rect>, order: seq<Rect>, back: seq<Rect>, now: seq<Rect>)
    requires multiset(sorted) == multiset(Numbered(was)) && SortedBy(HeightCompare, sorted)
    requires |order| == |sorted| && forall k :: 0 <= k < |order| ==> SameInput(order[k], sorted[k])
    requires multiset(back) == multiset(order) && SortedBy(OriginalOrder, back)
    requires |now| == |back|
    requires forall i :: 0 <= i < |now| ==> now[i] == back[i].(wasPacked := if Refused(back[i]) then 0 else 1)
    ensures Packed(was, order, now)
  {
    hide SortedBy;
    SortedKnowsOrigin(was, sorted);
    assert KeysAreIndices(order);
    SortingBackRestores(order, back);
    SortedBySize(sorted);
    forall i | 0 <= i < |now|
      ensures SameSize(now[i], was[i]) && HasKey(order, i)
    {
      var k :| 0 <= k < |order| && order[k] == back[i];
      assert order[k].wasPacked == i;
    }
  }

  lemma SortedBySize(sorted: seq<Rect>)
    requires SortedBy(HeightCompare, sorted)
    ensures BySize(sorted)
  {
    forall k, l | 0 <= k < l < |sorted|
      ensures sorted[k].h > sorted[l].h || (sorted[k].h == sorted[l].h && sorted[k].w >= sorted[l].w)
    {
      assert HeightCompare(sorted[k], sorted[l]) <= 0;
    }
  }

  method SortBySize(rects: array<Rect>)
    modifies rects
    ensures multiset(rects[..]) == multiset(Numbered(old(rects[..]))) && SortedBy(HeightCompare, rects[..])
  {
    hide IsOrder, SortedBy, Numbered;
    ComparatorsOrder();
    NumberRects(rects);
    Qsort(rects, HeightCompare);
  }

  method RestoreOrder(rects: array<Rect>) returns (all: int, ghost back: seq<Rect>)
    modifies rects
    ensures multiset(back) == multiset(old(rects[..])) && SortedBy(OriginalOrder, back) && |back| == rects.Length
    ensures forall i :: 0 <= i < |back| ==> rects[i] == back[i].(wasPacked := if Refused(back[i]) then 0 else 1)
    ensures all == if forall i :: 0 <= i < rects.Length ==> rects[i].wasPacked == 1 then 1 else 0
  {
    hide IsOrder, SortedBy;
    ComparatorsOrder();
    Qsort(rects, OriginalOrder);
    back := rects[..];
    all := SetFlags(rects);
  }

  /** Boxes placed by one call, seen from the array: apart from each other and from everything
      placed before, and inside the target. */
  lemma PackedNeverOverlaps(before: seq<Box>, s: Sky, width: int, height: int, was: seq<Rect>, order: seq<Rect>,
                            now: seq<Rect>)
    requires Safe(before + Boxes(order), s, width, height) && Packed(was, order, now)
    ensures NoOverlap(now)
    ensures forall i :: 0 <= i < |now| && IsPlaced(now[i]) ==> Fits(before, BoxOf(now[i]), width, height)
  {
    hide SkyOk, Under, Boxes, Inside, BySize;
    var all, boxes := before + Boxes(order), Boxes(order);
    assert forall k :: 0 <= k < |boxes| ==> all[|before| + k] == boxes[k];
    DisjointBoxesNoOverlap(order);
    forall i | 0 <= i < |now| && IsPlaced(now[i])
      ensures Fits(before, BoxOf(now[i]), width, height)
    {
      assert HasKey(order, i);
      var k :| 0 <= k < |order| && order[k].wasPacked == i;
      PlacedHasBox(order, k);
      var m :| 0 <= m < |boxes| && boxes[m] == BoxOf(now[i]);
      forall b | b in before
        ensures Disjoint(b, BoxOf(now[i]))
      {
        var j :| 0 <= j < |before| && before[j] == b;
        assert all[j] == b && all[|before| + m] == BoxOf(now[i]);
      }
    }
    forall i, j | 0 <= i < j < |now| && IsPlaced(now[i]) && IsPlaced(now[j])
      ensures Disjoint(BoxOf(now[i]), BoxOf(now[j]))
    {
      assert HasKey(order, i) && HasKey(order, j);
      var k :| 0 <= k < |order| && order[k].wasPacked == i;
      var l :| 0 <= l < |order| && order[l].wasPacked == j;
      assert Disjoint(BoxOf(order[k]), BoxOf(order[l])) || Disjoint(BoxOf(order[l]), BoxOf(order[k]));
    }
  }

  ghost predicate Fits(before: seq<Box>, b: Box, width: int, height: int) {
    Inside(b, width, height) && forall a <- before :: Disjoint(a, b)
  }

  /** Packs an array: tallest first, each at its best position; afterwards every rectangle is
      back in its place with a flag. */
  method PackRects(ctx: Context, rects: array<Rect>) returns (all: int, ghost order: seq<Rect>)
    requires ctx.Valid() && forall i :: 0 <= i < rects.Length ==> rects[i].w >= 0 && rects[i].h >= 0
    modifies rects, ctx`activeHead, ctx`freeHead, ctx`active, ctx`free, ctx`placed, ctx.Nodes()
    ensures ctx.Valid() && ctx.Nodes() == old(ctx.Nodes())
    ensures Packed(old(rects[..]), order, rects[..])
    ensures Greedy(old(ctx.Sky()), ctx.Settings(), ctx.numNodes, order, ctx.Sky())
    ensures ctx.placed == old(ctx.placed) + Boxes(order)
    ensures ctx.align == 1 && old(ctx.IsSettled()) ==> ctx.IsSettled()
    ensures NoOverlap(rects[..])
    ensures forall i :: 0 <= i < rects.Length && IsPlaced(rects[i]) ==>
              Fits(old(ctx.placed), BoxOf(rects[i]), ctx.width, ctx.height)
    ensures all == if forall i :: 0 <= i < rects.Length ==> rects[i].wasPacked == 1 then 1 else 0
  {
    hide Settled, Seg, Distinct, Safe, SkyOf, SkyOk, Boxes, Greedy, SortedBy, Packed, Numbered, Fits, NoOverlap,
      IsPlaced, Refused;
    ghost var was := rects[..];
    SortBySize(rects);
    ghost var sorted := rects[..];
    SortedSizes(was, sorted);
    PackAll(ctx, rects);
    order := rects[..];
    ghost var back;
    all, back := RestoreOrder(rects);
    PackedIsSorted(was, sorted, order, back, rects[..]);
    PackedNeverOverlaps(old(ctx.placed), ctx.Sky(), ctx.width, ctx.height, was, order, rects[..]);
  }
}
