/** The skyline packer: nodes linked in place, an active list and a free list. */
module RectPack {
  import opened Skyline
  import opened Placement
  import opened BestPosition
  import opened Floor
  import opened Columns
  import opened Support

  const MAXVAL: int := 0x7fff_ffff

  class Node {
    var x: int
    var y: int
    var next: Node?

    constructor ()
      ensures next == null
    {
      next := null;
    }
  }

  /** A link that points to a node: none, the head of the active list, or the link in a node. */
  datatype Link = NoLink | Head | After(node: Node)

  /** The nodes from head on are exactly ns, and the last one points to end. */
  ghost predicate Seg(head: Node?, ns: seq<Node>, end: Node?)
    reads ns
  {
    && head == (if ns == [] then end else ns[0])
    && forall i {:trigger ns[i].next} :: 0 <= i < |ns| ==> ns[i].next == if i + 1 < |ns| then ns[i + 1] else end
  }

  ghost predicate Distinct(ns: seq<Node>) {
    forall i, j :: 0 <= i < j < |ns| ==> ns[i] != ns[j]
  }

  ghost function SkyOf(ns: seq<Node>): (s: Sky)
    reads ns
    ensures |s| == |ns| && forall i :: 0 <= i < |ns| ==> s[i] == Step(ns[i].x, ns[i].y)
  {
    seq(|ns|, i requires 0 <= i < |ns| reads ns => Step(ns[i].x, ns[i].y))
  }

  class Context {
    var width: int
    var height: int
    var align: int
    var heuristic: Heuristic
    var numNodes: nat
    var activeHead: Node?
    var freeHead: Node?
    ghost var active: seq<Node>
    ghost var free: seq<Node>
    ghost var placed: seq<Box>

    const extra0: Node
    const extra1: Node

    /** A context that has not been given a target yet. */
    constructor ()
      ensures fresh(extra0) && fresh(extra1) && extra0 != extra1
    {
      extra0 := new Node();
      extra1 := new Node();
    }

    /** Starts on a new target: the skyline is flat, and every given node is free. */
    method InitTarget(width: int, height: int, nodes: seq<Node>)
      requires 1 <= width <= MAXVAL && 0 <= height <= MAXVAL
      requires nodes != [] && Distinct(nodes) && extra0 !in nodes && extra1 !in nodes && extra0 != extra1
      modifies this, nodes`next, extra0, extra1
      ensures Valid() && placed == [] && active == [extra0, extra1] && free == nodes
      ensures this.width == width && this.height == height && numNodes == |nodes| && heuristic == BottomLeft
      ensures align == AlignFor(width, |nodes|)
      ensures Sky() == [Step(0, 0), Step(width, 0x4000_0000)] && IsSettled()
    {
      hide Settled, Seg, Distinct, Safe, FloorLast, SkyOf, AlignFor;
      ResetFields(width, height, nodes);
      SetCorners(width, nodes);
      active, free, placed := [extra0, extra1], nodes, [];
      DistinctPair(extra0, extra1, nodes);
      FlatIsSafe(width, height);
      FlatIsSettled(width);
    }

    method ResetFields(width: int, height: int, nodes: seq<Node>)
      requires width >= 1 && nodes != [] && Distinct(nodes)
      modifies this, nodes`next
      ensures Seg(freeHead, nodes, null) && activeHead == extra0
      ensures this.width == width && this.height == height && numNodes == |nodes| && heuristic == BottomLeft
      ensures align == AlignFor(width, |nodes|)
    {
      LinkChain(nodes);
      heuristic := BottomLeft;
      freeHead := nodes[0];
      activeHead := extra0;
      this.width, this.height, numNodes := width, height, |nodes|;
      SetupAllowOutOfMem(false);
    }

    /** The two corners of a flat skyline: the full width, and the sentinel. */
    method SetCorners(width: int, ghost spare: seq<Node>)
      requires Seg(freeHead, spare, null) && extra0 !in spare && extra1 !in spare && extra0 != extra1
      modifies extra0, extra1
      ensures Seg(extra0, [extra0, extra1], null) && Seg(freeHead, spare, null)
      ensures SkyOf([extra0, extra1]) == [Step(0, 0), Step(width, 0x4000_0000)]
    {
      extra0.x, extra0.y, extra0.next := 0, 0, extra1;
      extra1.x, extra1.y, extra1.next := width, 0x4000_0000, null;
    }

    static method LinkChain(nodes: seq<Node>)
      requires nodes != [] && Distinct(nodes)
      modifies nodes`next
      ensures Seg(nodes[0], nodes, null)
    {
      var i := 0;
      while i < |nodes| - 1
        invariant 0 <= i <= |nodes| - 1
        invariant forall j {:trigger nodes[j].next} :: 0 <= j < i ==> nodes[j].next == nodes[j + 1]
      {
        nodes[i].next := nodes[i + 1];
        i := i + 1;
      }
      nodes[i].next := null;
    }

    method SetupHeuristic(heuristic: Heuristic)
      modifies this`heuristic
      ensures this.heuristic == heuristic
      ensures old(Valid()) ==> Valid() && (old(IsSettled()) ==> IsSettled())
    {
      this.heuristic := heuristic;
    }

    /** Either no alignment, or one that quantizes widths so that num_nodes of them cover the
        target. */
    method SetupAllowOutOfMem(allow: bool)
      requires numNodes >= 1 && width >= 1
      modifies this`align
      ensures align == if allow then 1 else AlignFor(width, numNodes)
      ensures old(Valid()) ==> Valid() && (old(IsSettled()) ==> IsSettled())
    {
      hide Safe;
      align := if allow then 1 else AlignFor(width, numNodes);
    }

    ghost predicate Lists()
      reads this, active, free
    {
      && Seg(activeHead, active, null)
      && Seg(freeHead, free, null)
      && Distinct(active + free)
      && |active| + |free| == numNodes + 2
    }

    ghost predicate Valid()
      reads this, active, free
    {
      && Lists()
      && 1 <= width <= MAXVAL && 0 <= height <= MAXVAL && align >= 1
      && Safe(placed, Sky(), width, height)
      && FloorLast(Sky())
    }

    /** The skyline is the outline of the boxes, and every box rests on something. */
    ghost predicate IsSettled()
      reads this, active
    {
      Settled(placed, Sky(), width)
    }

    /** What the search for a position relies on. */
    ghost predicate Searchable()
      reads this, active
    {
      Seg(activeHead, active, null) && SkyOk(Sky(), width) && FloorLast(Sky()) && align >= 1
    }

    ghost function Sky(): Sky
      reads this, active
    {
      SkyOf(active)
    }

    ghost function Settings(): Target
      reads this
    {
      Target(width, height, align, heuristic)
    }

    ghost function Nodes(): set<Node>
      reads this
    {
      set n | n in active + free
    }

    lemma NextOf(k: nat)
      requires Seg(activeHead, active, null) && k < |active|
      ensures active[0] == activeHead
      ensures active[k].next == if k + 1 < |active| then active[k + 1] else null
    {}

    method FindMinY(first: Node, ghost i: nat, x0: int, width: int) returns (minY: int, waste: int)
      requires Searchable() && i + 1 < |active| && first == active[i]
      requires SpanOf(Sky(), this.width, i, x0, width)
      ensures Span(minY, waste) == Measure(Sky(), i, x0, width)
      ensures Sky()[0].x == 0 && IsMaxHeight(Sky(), x0, x0 + width, minY)
      ensures waste == AreaBelow(Sky(), x0, x0 + width, minY)
    {
      hide SkyOk, FloorLast, Seg, Scan, Measure, SkyOf, IsMaxHeight, AreaBelow, Height;
      ghost var s, k := Sky(), i;

      var node: Node? := first;
      var x1 := x0 + width;
      var visited := 0;
      minY, waste := 0, 0;
      SentinelAtWidth(s, this.width);
      MeasureIsScan(s, i, x0, width);
      while node.x < x1
        invariant i <= k < |active| && node == active[k]
        invariant Scan(s, k, x0, width, minY, waste, visited) == Measure(s, i, x0, width)
        decreases |active| - k
      {
        Ascending(s, this.width, k, |s| - 1);
        NextOf(k);
        ScanStep(s, k, x0, width, minY, waste, visited);
        if node.y > minY {
          waste := waste + visited * (node.y - minY);
          minY := node.y;
          if node.x < x0 {
            visited := visited + (node.next.x - x0);
          } else {
            visited := visited + (node.next.x - node.x);
          }
        } else {
          var under := node.next.x - node.x;
          if under + visited > width {
            under := width - visited;
          }
          waste := waste + under * (minY - node.y);
          visited := visited + under;
        }
        node := node.next;
        k := k + 1;
      }
      ScanEnd(s, k, x0, width, minY, waste, visited);
      MeasureIsMax(s, this.width, i, x0, width);
      WasteIsArea(s, this.width, i, x0, width);
    }
  
    /** The link that points to the node at position i of the active list. */
    ghost predicate IsLinkTo(link: Link, i: nat)
      reads this
    {
      i < |active| && link == if i == 0 then Head else After(active[i - 1])
    }

    /** The link found for a position. */
    ghost predicate Matches(link: Link, r: Found)
      reads this
    {
      if r.Found? then IsLinkTo(link, r.node) else link == NoLink
    }

    method FindBottomLeft(w: int) returns (x: int, y: int, prev: Link, ghost r: Found)
      requires Searchable() && 0 < w <= width
      ensures IsBottomLeft(Sky(), Settings(), w, r) && LowestLeft(Sky(), width, w, r)
      ensures y == LowestY(r) && Matches(prev, r) && (r.Found? ==> x == r.x)
    {
      hide SkyOk, FloorLast, Seg, SkyOf, Measure, BottomLeftUpTo, IsBottomLeft, LowestLeft;
      ghost var s, i := Sky(), 0;
      SentinelAtWidth(s, width);
      NextOf(0);
      BottomLeftStart(s, width, w);
      var cur: Node? := activeHead;
      var before: Link := Head;
      x, y, prev, r := 0, NO_SCORE, NoLink, None;
      while cur.x + w <= width
        invariant i < |active| && cur == active[i] && IsLinkTo(before, i)
        invariant BottomLeftUpTo(s, width, w, i, r)
        invariant y == LowestY(r) && Matches(prev, r) && (r.Found? ==> x == r.x)
        decreases |active| - i
      {
        Ascending(s, width, i, |s| - 1);
        Ascending(s, width, i, i + 1);
        BottomLeftStep(s, width, w, i, r);
        var here, waste := FindMinY(cur, i, cur.x, w);
        if here < y {
          x, y, prev, r := cur.x, here, before, Found(cur.x, here, i);
        }
        NextOf(i);
        before := After(cur);
        cur := cur.next;
        i := i + 1;
      }
      BottomLeftDone(s, Settings(), w, i, r);
      BottomLeftIsLowest(s, Settings(), w, r);
    }
  
    method FindBestFit(w: int, h: int) returns (x: int, y: int, prev: Link, ghost r: Found)
      requires Searchable() && 0 < w <= width
      ensures IsBestFit(Sky(), Settings(), w, h, r) && LeastWaste(Sky(), Settings(), w, h, r)
      ensures y == LowestY(r) && Matches(prev, r) && (r.Found? ==> x == r.x)
    {
      hide LeastWaste, LeastWasteAtNodes, IsBestFit;
      var waste;
      x, y, waste, prev, r := FitLeft(w, h);
      x, y, prev, r := FitRight(w, h, Score(y, waste, x), prev, r);
    }

    /** One position of the first pass, kept when it beats the best so far. */
    method ConsiderLeft(node: Node, before: Link, ghost i: nat, w: int, h: int,
                        x0: int, y0: int, waste0: int, prev0: Link, ghost r0: Found)
      returns (x: int, y: int, waste: int, prev: Link, ghost r: Found)
      requires Searchable() && 0 < w <= width && i + 1 < |active| && node == active[i] && IsLinkTo(before, i)
      requires node.x + w <= width && BestFitUpTo(Sky(), Settings(), w, h, i, 0, r0)
      requires (r0.Found? ==> InRange(Sky(), w, r0.x)) && Score(y0, waste0, x0) == ScoreOf(Sky(), w, r0)
      requires Matches(prev0, r0)
      ensures BestFitUpTo(Sky(), Settings(), w, h, i + 1, 0, r)
      ensures (r.Found? ==> InRange(Sky(), w, r.x)) && Score(y, waste, x) == ScoreOf(Sky(), w, r)
      ensures Matches(prev, r)
    {
      hide SkyOk, FloorLast, Seg, SkyOf, Measure, BestFitUpTo;
      x, y, waste, prev := x0, y0, waste0, prev0;
      Ascending(Sky(), width, i, i + 1);
      LeftStep(Sky(), Settings(), w, h, i, r0);
      var here, wasteHere := FindMinY(node, i, node.x, w);
      r := Improve(Sky(), Settings(), w, h, r0, i, node.x);
      if here + h <= height {
        if here < y || (here == y && wasteHere < waste) {
          x, y, waste, prev := node.x, here, wasteHere, before;
        }
      }
    }

    /** The first pass: the left edge at each node. */
    method FitLeft(w: int, h: int) returns (x: int, y: int, waste: int, prev: Link, ghost r: Found)
      requires Searchable() && 0 < w <= width
      ensures BestFitUpTo(Sky(), Settings(), w, h, |active|, 0, r)
      ensures LeastWasteAtNodes(Sky(), Settings(), w, h, r)
      ensures (r.Found? ==> InRange(Sky(), w, r.x)) && Score(y, waste, x) == ScoreOf(Sky(), w, r)
      ensures Matches(prev, r)
    {
      hide SkyOk, FloorLast, Seg, SkyOf, Measure, BestFitUpTo, ScoreAt, LeastWasteAtNodes;
      SentinelAtWidth(Sky(), width);
      NextOf(0);
      BestFitStart(Sky(), Settings(), w, h);
      ghost var i: nat := 0;
      var cur: Node? := activeHead;
      var before: Link := Head;
      x, y, waste, prev, r := 0, NO_SCORE, NO_SCORE, NoLink, None;
      while cur.x + w <= width
        invariant i < |active| && cur == active[i] && IsLinkTo(before, i)
        invariant BestFitUpTo(Sky(), Settings(), w, h, i, 0, r)
        invariant (r.Found? ==> InRange(Sky(), w, r.x)) && Matches(prev, r)
        invariant Score(y, waste, x) == ScoreOf(Sky(), w, r)
        decreases |active| - i
      {
        Ascending(Sky(), width, i, |active| - 1);
        Ascending(Sky(), width, i, i + 1);
        x, y, waste, prev, r := ConsiderLeft(cur, before, i, w, h, x, y, waste, prev, r);
        NextOf(i);
        before := After(cur);
        cur := cur.next;
        i := i + 1;
      }
      LeftDone(Sky(), Settings(), w, h, i, r);
      FirstPassIsLeastWaste(Sky(), Settings(), w, h, r);
    }

    method FirstWideEnough(w: int, ghost h: int, ghost r: Found) returns (tail: Node?, ghost k: nat)
      requires Searchable() && 0 < w <= width
      requires BestFitUpTo(Sky(), Settings(), w, h, |Sky()|, 0, r)
      ensures k < |active| && tail == active[k] && active[k].x >= w
      ensures BestFitUpTo(Sky(), Settings(), w, h, |Sky()|, k, r)
    {
      hide SkyOk, FloorLast, Seg, SkyOf, Measure, BestFitUpTo;
      ghost var s := Sky();
      SentinelAtWidth(s, width);
      NextOf(0);
      tail, k := activeHead, 0;
      while tail.x < w
        invariant k < |active| && tail == active[k]
        invariant BestFitUpTo(s, Settings(), w, h, |s|, k, r)
        decreases |active| - k
      {
        RightSkip(s, Settings(), w, h, k, r);
        NextOf(k);
        tail := tail.next;
        k := k + 1;
      }
    }

    /** Moves on to the node whose step contains column xpos. */
    method AdvanceTo(node0: Node, before0: Link, ghost i0: nat, xpos: int)
      returns (node: Node, before: Link, ghost i: nat)
      requires Searchable() && i0 + 1 < |active| && node0 == active[i0] && IsLinkTo(before0, i0)
      requires node0.x <= xpos < width
      ensures i + 1 < |active| && node == active[i] && IsLinkTo(before, i)
      ensures active[i].x <= xpos < active[i + 1].x
    {
      hide SkyOk, FloorLast, Seg, SkyOf;
      node, before, i := node0, before0, i0;
      NextOf(i);
      while node.next.x <= xpos
        invariant i + 1 < |active| && node == active[i] && node.next == active[i + 1]
        invariant IsLinkTo(before, i) && node.x <= xpos
        decreases |active| - i
      {
        Ascending(Sky(), width, i + 1, i + 1);
        NextOf(i + 1);
        before := After(node);
        node := node.next;
        i := i + 1;
      }
    }

    /** One position of the second pass, kept when it beats the best so far. */
    method ConsiderRight(node: Node, before: Link, ghost i: nat, ghost k: nat, xpos: int, w: int, h: int,
                         x0: int, y0: int, waste0: int, prev0: Link, ghost r0: Found)
      returns (x: int, y: int, waste: int, prev: Link, ghost r: Found)
      requires Searchable() && 0 < w <= width && i < |active| && node == active[i] && IsLinkTo(before, i)
      requires RightAligned(Sky(), w, k, i, xpos) && BestFitUpTo(Sky(), Settings(), w, h, |Sky()|, k, r0)
      requires (r0.Found? ==> InRange(Sky(), w, r0.x)) && Score(y0, waste0, x0) == ScoreOf(Sky(), w, r0)
      requires Matches(prev0, r0)
      ensures BestFitUpTo(Sky(), Settings(), w, h, |Sky()|, k + 1, r)
      ensures (r.Found? ==> InRange(Sky(), w, r.x)) && Score(y, waste, x) == ScoreOf(Sky(), w, r)
      ensures Matches(prev, r)
    {
      hide SkyOk, FloorLast, Seg, SkyOf, Measure, BestFitUpTo;
      x, y, waste, prev := x0, y0, waste0, prev0;
      Ascending(Sky(), width, k, |Sky()| - 1);
      Ascending(Sky(), width, 0, i);
      RightStep(Sky(), Settings(), w, h, k, i, xpos, r0);
      var here, wasteHere := FindMinY(node, i, xpos, w);
      r := Improve(Sky(), Settings(), w, h, r0, i, xpos);
      if here + h <= height {
        if here <= y {
          if here < y || wasteHere < waste || (wasteHere == waste && xpos < x) {
            x, y, waste, prev := xpos, here, wasteHere, before;
          }
        }
      }
    }

    /** Where the second pass stands: at the tail node of position k, with the best so far. */
    ghost predicate RightPass(w: int, h: int, tail: Node?, k: nat, node: Node, before: Link, i: nat,
                              best: Score, prev: Link, r: Found)
      requires Searchable()
      reads this, active
    {
      && k <= |active| && tail == (if k < |active| then active[k] else null)
      && i + 1 < |active| && node == active[i] && IsLinkTo(before, i)
      && (k < |active| ==> active[k].x >= w && active[i].x <= active[k].x - w)
      && BestFitUpTo(Sky(), Settings(), w, h, |active|, k, r)
      && (r.Found? ==> InRange(Sky(), w, r.x)) && Matches(prev, r)
      && best == ScoreOf(Sky(), w, r)
    }

    method TryTail(w: int, h: int, tail0: Node, ghost k: nat, node0: Node, before0: Link, ghost i0: nat,
                   best0: Score, prev0: Link, ghost r0: Found)
      returns (tail: Node?, node: Node, before: Link, ghost i: nat, best: Score, prev: Link, ghost r: Found)
      requires Searchable() && 0 < w <= width && k < |active|
      requires RightPass(w, h, tail0, k, node0, before0, i0, best0, prev0, r0)
      ensures RightPass(w, h, tail, k + 1, node, before, i, best, prev, r)
      ensures tail != null <==> k + 1 < |active|
    {
      hide SkyOk, FloorLast, Seg, SkyOf, Measure, BestFitUpTo;
      var xpos := tail0.x - w;
      Ascending(Sky(), width, k, |Sky()| - 1);
      if k + 1 < |active| {
        Ascending(Sky(), width, k, k + 1);
      }
      node, before, i := AdvanceTo(node0, before0, i0, xpos);
      var x, y, waste;
      x, y, waste, prev, r := ConsiderRight(node, before, i, k, xpos, w, h, best0.x, best0.y, best0.waste, prev0, r0);
      best := Score(y, waste, x);
      NextOf(k);
      tail := tail0.next;
    }

    /** The second pass: the right edge at each node far enough to the right. */
    method FitRight(w: int, h: int, best0: Score, prev0: Link, ghost r0: Found)
      returns (x: int, y: int, prev: Link, ghost r: Found)
      requires Searchable() && 0 < w <= width
      requires BestFitUpTo(Sky(), Settings(), w, h, |active|, 0, r0)
      requires (r0.Found? ==> InRange(Sky(), w, r0.x)) && best0 == ScoreOf(Sky(), w, r0)
      requires Matches(prev0, r0)
      ensures IsBestFit(Sky(), Settings(), w, h, r) && LeastWaste(Sky(), Settings(), w, h, r)
      ensures y == LowestY(r) && Matches(prev, r) && (r.Found? ==> x == r.x)
    {
      hide BestFitUpTo, SkyOk, FloorLast, RightPass, Seg, SkyOf, IsBestFit, LeastWaste;
      SentinelAtWidth(Sky(), width);
      NextOf(0);
      var tail: Node?, best, node: Node, before := null, best0, activeHead, Head;
      ghost var k: nat, i: nat := 0, 0;
      tail, k := FirstWideEnough(w, h, r0);
      prev, r := prev0, r0;
      RightPassStart(w, h, tail, k, node, best, prev, r);
      while tail != null
        invariant RightPass(w, h, tail, k, node, before, i, best, prev, r)
        invariant k <= |active| && (tail != null <==> k < |active|)
        decreases |active| - k
      {
        tail, node, before, i, best, prev, r := TryTail(w, h, tail, k, node, before, i, best, prev, r);
        k := k + 1;
      }
      RightPassDone(w, h, tail, k, node, before, i, best, prev, r);
      BestFitIsLeastWaste(Sky(), Settings(), w, h, r);
      x, y := best.x, best.y;
    }

    lemma RightPassStart(w: int, h: int, tail: Node?, k: nat, node: Node, best: Score, prev: Link, r: Found)
      requires Searchable() && k < |active| && tail == active[k] && active[k].x >= w && node == active[0]
      requires BestFitUpTo(Sky(), Settings(), w, h, |active|, k, r)
      requires (r.Found? ==> InRange(Sky(), w, r.x)) && Matches(prev, r) && best == ScoreOf(Sky(), w, r)
      ensures RightPass(w, h, tail, k, node, Head, 0, best, prev, r)
    {}

    lemma RightPassDone(w: int, h: int, tail: Node?, k: nat, node: Node, before: Link, i: nat, best: Score,
                        prev: Link, r: Found)
      requires Searchable() && RightPass(w, h, tail, k, node, before, i, best, prev, r) && tail == null
      ensures IsBestFit(Sky(), Settings(), w, h, r)
      ensures best.y == LowestY(r) && Matches(prev, r) && (r.Found? ==> best.x == r.x)
    {
      hide SkyOk, Measure;
      BestFitDone(Sky(), Settings(), w, h, r);
    }
  
    method FindBestPos(width: int, height: int) returns (x: int, y: int, prev: Link, ghost r: Found)
      requires Searchable() && width > 0
      ensures IsBest(Sky(), Settings(), width, height, r) && IsBestColumn(Sky(), Settings(), width, height, r)
      ensures Matches(prev, r) && (r.Found? ==> x == r.x && y == r.y)
    {
      hide LowestLeft, LeastWaste;
      var w := Aligned(width, align);
      if w > this.width || height > this.height {
        return 0, 0, NoLink, None;
      }
      if heuristic == BottomLeft {
        x, y, prev, r := FindBottomLeft(w);
      } else {
        x, y, prev, r := FindBestFit(w, height);
      }
      BestIsBestColumn(Sky(), Settings(), width, height, r);
    }

    // ------------------------------------------------------------- placing a box

    /** Takes the first free node and gives it its corner. */
    method TakeFree(x: int, top: int) returns (node: Node)
      requires Seg(freeHead, free, null) && Distinct(free) && free != []
      requires Seg(activeHead, active, null) && free[0] !in active
      modifies this`freeHead, free[0]
      ensures node == free[0] && node.x == x && node.y == top
      ensures Sky() == old(Sky()) && Seg(activeHead, active, null)
      ensures Seg(freeHead, free[1..], null)
    {
      node := freeHead;
      node.x := x;
      node.y := top;
      freeHead := node.next;
    }

    /** Makes the found link point to the new node; cur is the first node after it that may
        have to go. */
    method LinkIn(node: Node, x: int, prev: Link, ghost i: nat, ghost spare: seq<Node>)
      returns (cur: Node, ghost c: nat)
      requires Seg(activeHead, active, null) && Distinct(active) && node !in active
      requires IsLinkTo(prev, i) && i + 1 < |active|
      requires Seg(freeHead, spare, null) && Apart(spare, active)
      modifies this`activeHead, active`next
      ensures c == FirstCut(old(Sky()), i, x) && c < |active| && cur == active[c]
      ensures Seg(activeHead, active[..c], node) && Seg(cur, active[c..], null) && Seg(freeHead, spare, null)
      ensures Sky() == old(Sky())
    {
      hide SkyOf;
      cur := match prev case Head => activeHead case After(n) => n.next;
      c := i;
      if cur.x < x {
        var next := cur.next;
        cur.next := node;
        cur := next;
        c := i + 1;
      } else {
        match prev
        case Head => activeHead := node;
        case After(n) => n.next := node;
      }
      SameSky(active);
    }

    /** Moves covered nodes from cur on to the free list, up to the first that stays. */
    method FreeCovered(cur0: Node, end: int, ghost before: seq<Node>, ghost node: Node, ghost rest: seq<Node>,
                       ghost spare: seq<Node>)
      returns (cur: Node, ghost k: nat)
      requires Seg(cur0, rest, null) && Seg(freeHead, spare, null) && rest != []
      requires Seg(activeHead, before, node) && Apart(before, rest)
      requires Distinct(rest + spare)
      modifies this`freeHead, rest`next
      ensures k == FirstKept(old(SkyOf(rest)), 0, end) && cur == rest[k]
      ensures Seg(cur, rest[k..], null) && Seg(freeHead, Pushed(rest, k, spare), null) && Seg(activeHead, before, node)
      ensures Sky() == old(Sky())
    {
      hide Pushed, Seg, SkyOf, FirstKept;
      cur, k := cur0, 0;
      SegNext(cur0, rest, null);
      ghost var s := SkyOf(rest);
      PushedNone(rest, spare);
      while cur.next != null && cur.next.x <= end
        invariant k < |rest| && cur == rest[k]
        invariant forall j {:trigger rest[j].next} :: k <= j < |rest| ==>
            rest[j].next == if j + 1 < |rest| then rest[j + 1] else null
        invariant Seg(freeHead, Pushed(rest, k, spare), null) && Seg(activeHead, before, node)
        invariant FirstKept(s, k, end) == FirstKept(s, 0, end)
        decreases |rest| - k
      {
        KeptNext(s, k, end);
        DistinctPrefix(rest, spare);
        PushedDistinct(rest, k, spare);
        PushedStep(rest, k, spare);
        var next := cur.next;
        PushFree(cur, Pushed(rest, k, spare), before, node);
        cur := next;
        k := k + 1;
      }
      KeptHere(s, k, end);
      SegFrom(rest, k);
      SameSky(active);
    }

    /** The first half of a placement: a free node goes in, covered nodes go to the free list. */
    method CutOut(x: int, top: int, end: int, prev: Link, ghost i: nat)
      returns (node: Node, cur: Node, ghost c: nat, ghost k: nat)
      requires Lists() && free != [] && IsLinkTo(prev, i) && i + 1 < |active|
      modifies this`activeHead, this`freeHead, active`next, free[0]
      ensures c == FirstCut(old(Sky()), i, x) && c + k == FirstKept(old(Sky()), c, end) && c + k < |active|
      ensures node == free[0] && node.x == x && node.y == top && cur == active[c + k] && Sky() == old(Sky())
      ensures Seg(activeHead, active[..c], node) && Seg(cur, active[c..][k..], null)
      ensures Seg(freeHead, Pushed(active[c..], k, free[1..]), null)
    {
      hide Seg, Distinct, FirstKept, Pushed, Apart, FirstCut, SkyOf;
      ghost var s := Sky();
      FirstCutInRange(s, i, x);
      PartsDistinct(active, free, FirstCut(s, i, x));
      node := TakeFree(x, top);
      cur, c := LinkIn(node, x, prev, i, free[1..]);
      assert c == FirstCut(s, i, x);
      ghost var rest := active[c..];
      SkyOfSuffix(active, c);
      ghost var r := SkyOf(rest);
      cur, k := FreeCovered(cur, end, active[..c], node, rest, free[1..]);
      FirstKeptFrom(s, r, c, k, end);
    }

    /** The second half: the new node is stitched to the first node that stays, which is cut
        back to the end of the box. */
    method Stitch(node: Node, cur: Node, end: int, ghost before: seq<Node>, ghost rest: seq<Node>,
                  ghost spare: seq<Node>)
      requires Seg(activeHead, before, node) && Seg(cur, rest, null) && Seg(freeHead, spare, null) && rest != []
      requires Distinct(before + [node] + rest + spare)
      modifies node`next, cur`x
      ensures Seg(activeHead, before + [node] + rest, null) && Seg(freeHead, spare, null)
      ensures SkyOf(before + [node] + rest) ==
                CutBack(old(SkyOf(before)), old(Step(node.x, node.y)), old(SkyOf(rest)), end)
    {
      hide Distinct, SkyOf;
      StitchApart(before, node, rest, spare);
      SegNext(cur, rest, null);
      node.next := cur;
      SegJoin(activeHead, before, node, rest);
      CutFirst(cur, end, before, rest);
      SkyOfJoin(before, node, rest);
    }

    /** The first kept node is cut back to the end of the box. */
    method CutFirst(cur: Node, end: int, ghost before: seq<Node>, ghost rest: seq<Node>)
      requires rest != [] && cur == rest[0] && Distinct(rest) && cur !in before
      modifies cur`x
      ensures SkyOf(before) == old(SkyOf(before))
      ensures SkyOf(rest) == old(SkyOf(rest))[0 := Step(Max(old(cur.x), end), cur.y)]
    {
      if cur.x < end {
        cur.x := end;
      }
    }

    /** The whole relinking, which leaves the nodes in two new lists. */
    method Relink(x: int, top: int, end: int, prev: Link, ghost i: nat)
      returns (ghost now: seq<Node>, ghost spare: seq<Node>)
      requires Lists() && free != [] && IsLinkTo(prev, i) && i + 1 < |active|
      modifies this`activeHead, this`freeHead, active, free
      ensures Seg(activeHead, now, null) && Seg(freeHead, spare, null)
      ensures Distinct(now + spare) && |now| + |spare| == |active| + |free|
      ensures (set n | n in now + spare) == (set n | n in active + free)
      ensures SkyOf(now) == Insert(old(Sky()), i, x, top, end)
    {
      hide Seg, Distinct, Insert, CutBack, Pushed, SkyOf, FirstCut, FirstKept;
      ghost var s := Sky();
      var node, cur, c, k := CutOut(x, top, end, prev, i);
      Rearranged(active, free, c, k);
      ghost var before, rest := active[..c], active[c..][k..];
      spare := Pushed(active[c..], k, free[1..]);
      now := before + [node] + rest;
      SkyOfPrefix(active, c);
      SkyOfSuffix(active, c);
      SkyOfSuffix(active[c..], k);
      InsertByParts(s, i, x, top, end, c, k);
      Stitch(node, cur, end, before, rest, spare);
    }

    /** Puts a corner on the skyline in place: one free node goes in, the covered nodes go to
        the free list, and the next node is cut back. */
    method PlaceNode(x: int, top: int, end: int, prev: Link, ghost i: nat)
      requires Lists() && free != [] && IsLinkTo(prev, i) && i + 1 < |active|
      modifies this`activeHead, this`freeHead, this`active, this`free, active, free
      ensures Lists() && Nodes() == old(Nodes())
      ensures Sky() == Insert(old(Sky()), i, x, top, end)
    {
      hide Seg, Distinct, Insert, SkyOf;
      active, free := Relink(x, top, end, prev, i);
    }

    method PushFree(node: Node, ghost spare: seq<Node>, ghost before: seq<Node>, ghost end: Node)
      requires Seg(freeHead, spare, null) && node !in spare
      requires Seg(activeHead, before, end) && node !in before
      modifies this`freeHead, node`next
      ensures Seg(freeHead, [node] + spare, null) && Seg(activeHead, before, end)
    {
      node.next := freeHead;
      freeHead := node;
    }

    /** Packs one box: at the best position when there is one, it lies below the top, and a
        node is left; otherwise nothing changes. */
    method PackRectangle(w: int, h: int) returns (packed: bool, x: int, y: int, ghost best: Found)
      requires Valid() && w > 0 && h > 0
      modifies this`activeHead, this`freeHead, this`active, this`free, this`placed, active, free
      ensures Valid() && Nodes() == old(Nodes())
      ensures IsBest(old(Sky()), Settings(), w, h, best)
      ensures IsBestColumn(old(Sky()), Settings(), w, h, best)
      ensures packed <==> best.Found? && best.y + h <= height && old(free) != []
      ensures SkyOk(old(Sky()), width) && align >= 1
      ensures packed <==> CanFitLow(old(Sky()), Settings(), w, h) && old(free) != []
      ensures height <= 0x4000_0000 ==> (packed <==> CanFit(old(Sky()), Settings(), w, h) && old(free) != [])
      ensures packed ==> x == best.x && y == best.y && placed == old(placed) + [Box(x, y, w, h)]
      ensures packed ==> best.node + 1 < |old(Sky())| && Sky() == Insert(old(Sky()), best.node, x, y + h, x + w)
      ensures !packed ==> placed == old(placed) && Sky() == old(Sky()) && active == old(active) && free == old(free)
      ensures old(numNodes >= width ==> free != [])
      ensures align == 1 && old(IsSettled()) ==> IsSettled()
    {
      hide Settled, CanFit, CanFitLow, IsBestColumn, Seg, Safe, SkyOk, FloorLast, IsBest, Distinct, Insert, SkyOf;
      NodesSuffice();
      var prev;
      x, y, prev, best := FindBestPos(w, h);
      BestFitsIff(Sky(), Settings(), w, h, best);
      HeadMeansNodes(freeHead, free);
      packed := prev != NoLink && y + h <= height && freeHead != null;
      if packed {
        Commit(x, y, w, h, prev, best);
      }
    }

    /** The placement of a box at its best position, for which a node is left. */
    method Commit(x: int, y: int, w: int, h: int, prev: Link, ghost best: Found)
      requires Valid() && w > 0 && h > 0 && free != []
      requires IsBest(Sky(), Settings(), w, h, best) && best.Found? && x == best.x && y == best.y && y + h <= height
      requires IsLinkTo(prev, best.node)
      modifies this`activeHead, this`freeHead, this`active, this`free, this`placed, active, free
      ensures Valid() && Nodes() == old(Nodes())
      ensures placed == old(placed) + [Box(x, y, w, h)]
      ensures best.node + 1 < |old(Sky())| && Sky() == Insert(old(Sky()), best.node, x, y + h, x + w)
      ensures align == 1 && old(IsSettled()) ==> IsSettled()
    {
      hide Settled, Seg, Safe, SkyOk, FloorLast, IsBest, Distinct, Insert, SkyOf;
      CommitIsSafe(Sky(), Settings(), placed, w, h, best);
      ghost var s := Sky();
      if align == 1 && IsSettled() {
        BestKeepsSettled(s, Settings(), placed, w, h, best);
      }
      placed := placed + [Box(x, y, w, h)];
      assert Sky() == s;
      PlaceNode(x, y + h, x + w, prev, best.node);
    }

    /** With at least as many nodes as columns, a node is always left: every active node has
        its own column. */
    lemma NodesSuffice()
      requires Valid()
      ensures Searchable() && (numNodes >= width ==> free != [])
    {
      OneColumnEach(Sky(), width, |active| - 1);
    }
  }

  /** A box at its best position keeps the target safe. */
  lemma CommitIsSafe(s: Sky, t: Target, placed: seq<Box>, w: int, h: int, best: Found)
    requires Safe(placed, s, t.width, t.height) && FloorLast(s) && t.align >= 1 && w > 0 && h > 0
    requires IsBest(s, t, w, h, best) && best.Found? && best.y + h <= t.height
    ensures best.node + 1 < |s|
    ensures var after := Insert(s, best.node, best.x, best.y + h, best.x + w);
            Safe(placed + [Box(best.x, best.y, w, h)], after, t.width, t.height) && FloorLast(after)
  {
    hide Height, Insert, IsBest, FloorLast, Aligned, SkyOk, Under;
    BestIsSupported(s, t, w, h, best);
    SpanStep(s, t.width, best.node, best.x, Aligned(w, t.align));
    BestKeepsSky(s, t, w, h, best);
    PlaceKeepsSafe(placed, s, t.width, t.height, best.node, Box(best.x, best.y, w, h));
  }

  lemma DistinctPair(a: Node, b: Node, ns: seq<Node>)
    requires Distinct(ns) && a != b && a !in ns && b !in ns
    ensures Distinct([a, b] + ns)
  {
    var all := [a, b] + ns;
    forall i, j | 0 <= i < j < |all|
      ensures all[i] != all[j]
    {
      if i >= 2 {
        assert ns[i - 2] != ns[j - 2];
      }
    }
  }

  lemma FlatIsSafe(width: int, height: int)
    requires width >= 1
    ensures Safe([], [Step(0, 0), Step(width, 0x4000_0000)], width, height)
    ensures FloorLast([Step(0, 0), Step(width, 0x4000_0000)])
  {}

  function AlignFor(width: int, n: nat): (a: int)
    requires width >= 1 && n >= 1
    ensures a >= 1
  {
    QuotientAtLeastOne(width, n);
    (width + n - 1) / n
  }

  lemma QuotientAtLeastOne(width: int, n: nat)
    requires width >= 1 && n >= 1
    ensures (width + n - 1) / n >= 1
  {}

  /** The default alignment is the least one with which num_nodes boxes cover the width. */
  lemma AlignIsLeastCover(width: int, n: nat, a: int)
    requires width >= 1 && n >= 1
    ensures n * a >= width <==> a >= AlignFor(width, n)
  {
    var q, r := (width + n - 1) / n, (width + n - 1) % n;
    assert width + n - 1 == n * q + r;
    if a >= q {
      assert n * a >= n * q;
    } else {
      assert n * a <= n * (q - 1);
    }
  }

  lemma {:induction false} OneColumnEach(s: Sky, width: int, i: nat)
    requires SkyOk(s, width) && i < |s|
    ensures i <= s[i].x <= width
  {
    if i > 0 {
      OneColumnEach(s, width, i - 1);
    }
    Ascending(s, width, i, |s| - 1);
  }

  lemma HeadMeansNodes(head: Node?, ns: seq<Node>)
    requires Seg(head, ns, null)
    ensures head == null <==> ns == []
  {}

  lemma SpanStep(s: Sky, width: int, i: nat, x: int, w: int)
    requires SpanOf(s, width, i, x, w)
    ensures i + 1 < |s| && 0 <= s[i].x <= x < s[i + 1].x && x + w <= width && w > 0
  {
    Ascending(s, width, 0, i);
  }

  lemma SegJoin(head: Node?, before: seq<Node>, node: Node, rest: seq<Node>)
    requires Seg(head, before, node) && Seg(node.next, rest, null)
    ensures Seg(head, before + [node] + rest, null)
  {
    var all := before + [node] + rest;
    forall j {:trigger all[j].next} | 0 <= j < |all|
      ensures all[j].next == if j + 1 < |all| then all[j + 1] else null
    {
      if j < |before| {
        assert before[j].next == if j + 1 < |before| then before[j + 1] else node;
      } else if j > |before| {
        var m := j - |before| - 1;
        assert rest[m].next == if m + 1 < |rest| then rest[m + 1] else null;
      }
    }
  }

  lemma {:induction false} FirstKeptSuffix(s: Sky, c: nat, j: nat, end: int)
    requires c + j < |s|
    ensures FirstKept(s[c..], j, end) + c == FirstKept(s, c + j, end)
    decreases |s| - j
  {
    if c + j + 1 < |s| && s[c + j + 1].x <= end {
      FirstKeptSuffix(s, c, j + 1, end);
    }
  }

  ghost predicate Apart(ns: seq<Node>, ms: seq<Node>) {
    forall j :: 0 <= j < |ns| ==> ns[j] !in ms
  }

  lemma FirstCutInRange(s: Sky, i: nat, x: int)
    requires i + 1 < |s|
    ensures FirstCut(s, i, x) < |s|
  {}

  lemma KeptNext(s: Sky, k: nat, end: int)
    requires k + 1 < |s| && s[k + 1].x <= end
    ensures FirstKept(s, k, end) == FirstKept(s, k + 1, end)
  {}

  lemma KeptHere(s: Sky, k: nat, end: int)
    requires k < |s| && (k + 1 < |s| ==> end < s[k + 1].x)
    ensures FirstKept(s, k, end) == k
  {}

  lemma FirstKeptFrom(s: Sky, r: Sky, c: nat, k: nat, end: int)
    requires c < |s| && r == s[c..] && k == FirstKept(r, 0, end)
    ensures c + k == FirstKept(s, c, end) && c + k < |s|
  {
    FirstKeptSuffix(s, c, 0, end);
  }

  /** The parts into which placing a node cuts the two lists share no node. */
  lemma PartsDistinct(active: seq<Node>, free: seq<Node>, c: nat)
    requires Distinct(active + free) && c < |active| && free != []
    ensures Distinct(active) && Distinct(free) && Distinct(active[c..] + free[1..])
    ensures free[0] !in active && free[0] !in free[1..]
    ensures Apart(active[..c], active[c..]) && Apart(free, active) && Apart(free[1..], active)
  {
    var all, part := active + free, active[c..] + free[1..];
    assert forall j :: 0 <= j < |active| ==> all[j] == active[j];
    assert forall j :: 0 <= j < |free| ==> all[|active| + j] == free[j];
    forall i, j | 0 <= i < j < |part|
      ensures part[i] != part[j]
    {
      var m := |active| - c;
      assert part[i] == all[if i < m then c + i else c + i + 1];
      assert part[j] == all[if j < m then c + j else c + j + 1];
    }
  }

  ghost function CutBack(before: Sky, step: Step, rest: Sky, end: int): Sky
    requires rest != []
  {
    before + [step] + rest[0 := Step(Max(rest[0].x, end), rest[0].y)]
  }

  lemma SkyOfPrefix(ns: seq<Node>, c: nat)
    requires c <= |ns|
    ensures SkyOf(ns[..c]) == SkyOf(ns)[..c]
  {}

  twostate lemma SameSky(ns: seq<Node>)
    requires forall j :: 0 <= j < |ns| ==> ns[j].x == old(ns[j].x) && ns[j].y == old(ns[j].y)
    ensures SkyOf(ns) == old(SkyOf(ns))
  {}

  lemma SkyOfSuffix(ns: seq<Node>, c: nat)
    requires c <= |ns|
    ensures SkyOf(ns[c..]) == SkyOf(ns)[c..]
  {}

  lemma SkyOfJoin(before: seq<Node>, node: Node, rest: seq<Node>)
    ensures SkyOf(before + [node] + rest) == SkyOf(before) + [Step(node.x, node.y)] + SkyOf(rest)
  {}

  lemma InsertByParts(s: Sky, i: nat, x: int, top: int, end: int, c: nat, k: nat)
    requires i + 1 < |s| && c == FirstCut(s, i, x) && c + k == FirstKept(s, c, end)
    ensures Insert(s, i, x, top, end) == CutBack(s[..c], Step(x, top), s[c..][k..], end)
  {}

  lemma StitchApart(before: seq<Node>, node: Node, rest: seq<Node>, spare: seq<Node>)
    requires Distinct(before + [node] + rest + spare)
    ensures node !in before && node !in rest && node !in spare && Distinct(rest) && Apart(rest, spare)
        && Apart(rest, before)
  {
    var all, n := before + [node] + rest + spare, |before|;
    assert forall j :: 0 <= j < n ==> all[j] == before[j];
    assert all[n] == node;
    assert forall j :: 0 <= j < |rest| ==> all[n + 1 + j] == rest[j];
    assert forall j :: 0 <= j < |spare| ==> all[n + 1 + |rest| + j] == spare[j];
  }

  /** The rearranged lists hold exactly the old nodes, each once. */
  lemma Rearranged(active: seq<Node>, free: seq<Node>, c: nat, k: nat)
    requires Distinct(active + free) && c + k < |active| && free != []
    ensures var before, rest, spare := active[..c], active[c..][k..], Pushed(active[c..], k, free[1..]);
            var now := before + [free[0]] + rest;
            && Distinct(now + spare)
            && |now| + |spare| == |active| + |free|
            && (set n | n in now + spare) == (set n | n in active + free)
  {
    hide Pushed;
    var before, rest, spare := active[..c], active[c..][k..], Pushed(active[c..], k, free[1..]);
    var all, now := active + free, before + [free[0]] + rest + spare;
    RearrangedFrom(active, free, c, k);
    forall i, j | 0 <= i < j < |now|
      ensures now[i] != now[j]
    {
      assert all[Origin(|active|, c, k, i)] != all[Origin(|active|, c, k, j)];
    }
    forall n | n in all
      ensures n in now
    {
      var m :| 0 <= m < |all| && all[m] == n;
      assert now[Destination(|active|, c, k, m)] == n;
    }
    assert forall n <- now :: n in all;
  }

  lemma RearrangedFrom(active: seq<Node>, free: seq<Node>, c: nat, k: nat)
    requires c + k < |active| && free != []
    ensures var all := active + free;
            var now := active[..c] + [free[0]] + active[c..][k..] + Pushed(active[c..], k, free[1..]);
            && |now| == |all|
            && forall j :: 0 <= j < |now| ==>
                 0 <= Origin(|active|, c, k, j) < |all| && now[j] == all[Origin(|active|, c, k, j)]
  {
    hide Pushed;
    var before, rest, spare := active[..c], active[c..][k..], Pushed(active[c..], k, free[1..]);
    var all, now := active + free, before + [free[0]] + rest + spare;
    forall j | 0 <= j < |now|
      ensures 0 <= Origin(|active|, c, k, j) < |all| && now[j] == all[Origin(|active|, c, k, j)]
    {
      if j < c {
        assert now[j] == before[j];
      } else if j == c {
        assert now[j] == free[0];
      } else if j <= |active| - k {
        assert now[j] == rest[j - c - 1];
      } else {
        assert now[j] == spare[j - (|active| - k + 1)];
      }
    }
  }

  /** Where the node at a position of the new lists was in the old lists, and back. */
  ghost function Origin(a: nat, c: nat, k: nat, j: nat): int {
    if j < c then j
    else if j == c then a
    else if j <= a - k then j + k - 1
    else
      var p := j - (a - k + 1);
      if p < k then c + k - 1 - p else a + 1 + (p - k)
  }

  ghost function Destination(a: nat, c: nat, k: nat, m: nat): int {
    if m < c then m
    else if m < c + k then a - k + 1 + (c + k - 1 - m)
    else if m < a then m - k + 1
    else if m == a then c
    else m
  }

  /** The free list after the first k nodes of a list were pushed on it one by one. */
  ghost function Pushed(rest: seq<Node>, k: nat, spare: seq<Node>): (p: seq<Node>)
    requires k <= |rest|
    ensures |p| == k + |spare|
    ensures forall j :: 0 <= j < k ==> p[j] == rest[k - 1 - j]
    ensures forall j :: 0 <= j < |spare| ==> p[k + j] == spare[j]
  {
    if k == 0 then spare else [rest[k - 1]] + Pushed(rest, k - 1, spare)
  }

  lemma PushedNone(rest: seq<Node>, spare: seq<Node>)
    ensures Pushed(rest, 0, spare) == spare
  {}

  lemma DistinctPrefix(rest: seq<Node>, spare: seq<Node>)
    requires Distinct(rest + spare)
    ensures Distinct(rest)
  {
    assert forall j :: 0 <= j < |rest| ==> (rest + spare)[j] == rest[j];
  }

  lemma SegNext(head: Node?, ns: seq<Node>, end: Node?)
    requires Seg(head, ns, end)
    ensures head == if ns == [] then end else ns[0]
    ensures forall j {:trigger ns[j].next} :: 0 <= j < |ns| ==> ns[j].next == if j + 1 < |ns| then ns[j + 1] else end
  {}

  lemma SegFrom(ns: seq<Node>, k: nat)
    requires k < |ns|
    requires forall j {:trigger ns[j].next} :: k <= j < |ns| ==> ns[j].next == if j + 1 < |ns| then ns[j + 1] else null
    ensures Seg(ns[k], ns[k..], null)
  {}

  lemma PushedStep(rest: seq<Node>, k: nat, spare: seq<Node>)
    requires k < |rest|
    ensures Pushed(rest, k + 1, spare) == [rest[k]] + Pushed(rest, k, spare)
  {}

  lemma PushedDistinct(rest: seq<Node>, k: nat, spare: seq<Node>)
    requires Distinct(rest + spare) && k < |rest|
    ensures rest[k] !in Pushed(rest, k, spare)
  {
    var all := rest + spare;
    forall j | 0 <= j < k + |spare|
      ensures Pushed(rest, k, spare)[j] != rest[k]
    {
      if j < k {
        assert all[k - 1 - j] != all[k];
      } else {
        assert all[|rest| + (j - k)] != all[k];
      }
    }
  }
}
