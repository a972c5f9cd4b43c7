/** How many nodes are enough when widths are rounded: the promise of `setup_allow_out_of_mem`, the
    condition it needs, and the runs that break it. */
module RoundedWidths {
  import opened Wrappers
  import opened Bytes
  import opened Skyline
  import opened Packing
  import opened Targets
  import opened WastedArea
  import opened Ground

  /** Every node but the last stands on a multiple of the alignment. */
  ghost predicate OnGrid(s: seq<Seg>, align: int)
    requires 0 < align
  {
    forall i :: 0 <= i < |s| - 1 ==> s[i].x % align == 0
  }

  lemma GridSum(a: int, b: int, m: int)
    requires 0 < m && a % m == 0 && b % m == 0
    ensures (a + b) % m == 0 && (a - b) % m == 0
  {
    var p, q := a / m, b / m;
    assert a == p * m && b == q * m;
    assert a + b == (p + q) * m && a - b == (p - q) * m;
    DivModUnique(a + b, m, p + q, 0);
    DivModUnique(a - b, m, p - q, 0);
  }

  lemma InsertOnGrid(s: seq<Seg>, i: nat, x: int, w: int, top: int, align: int)
    requires i < |s| - 1 && 0 < align && OnGrid(s, align) && x % align == 0 && (x + w) % align == 0
    ensures OnGrid(Insert(s, i, x, w, top), align)
  {
    var k := Kept(s, i, x);
    var j := SkipTo(s, k, x + w);
    var r := Insert(s, i, x, w, top);
    forall n | 0 <= n < |r| - 1 ensures r[n].x % align == 0 {
      assert r[n].x == if n < k then s[n].x else if n == k then x
                       else if n == k + 1 then Max(s[j].x, x + w) else s[n - k - 1 + j].x;
    }
  }

  /** The columns behind the last multiple of the alignment are still on the ground. */
  ghost predicate EdgeOnGround(s: seq<Seg>, align: int)
    requires |s| >= 2 && 0 < align
  {
    End(s) % align == 0 || s[|s| - 2].y == 0
  }

  /** Moving a rectangle left inside the segment under its left end does not raise it. */
  lemma ShiftedTop(s: seq<Seg>, x: int, y: int, w: int)
    requires ValidSky(s) && 0 < w && 0 <= y < x && x + w <= End(s) && s[IndexAt(s, x)].x <= y
    ensures TopAt(s, w, y) <= TopAt(s, w, x)
  {
    hide Increasing, Height;
    var i := IndexAt(s, x);
    var c :| y <= c < y + w && Height(s, c) == TopAt(s, w, y);
    SegmentHeight(s, i, x);
    if c < x {
      SegmentHeight(s, i, c);
    }
    assert Height(s, if c < x then x else c) <= TopAt(s, w, x);
  }

  /** ... and when it leaves only ground, it loses less. */
  lemma ShiftedArea(s: seq<Seg>, x: int, y: int, w: int, top: int)
    requires ValidSky(s) && 0 < w && 0 <= y < x && x + w <= End(s) && s[IndexAt(s, x)].x <= y
    requires s[IndexAt(s, x)].y > 0 && forall c :: y + w <= c < x + w ==> Height(s, c) == 0
    ensures Area(s, y, y + w, top) < Area(s, x, x + w, top)
  {
    hide Increasing, Height, Area;
    var i := IndexAt(s, x);
    forall c | y <= c < x ensures Height(s, c) == s[i].y {
      SegmentHeight(s, i, c);
    }
    AreaSplit(s, y, x, x + w, top);
    AreaSplit(s, y, y + w, x + w, top);
    AreaExtend(s, y, y, x, top, s[i].y);
    AreaExtend(s, y + w, y + w, x + w, top, 0);
    NoAreaAt(s, y, top);
    NoAreaAt(s, y + w, top);
    Lost(x - y, top, s[i].y);
  }

  lemma NoAreaAt(s: seq<Seg>, a: int, top: int)
    requires ValidSky(s) && 0 <= a <= End(s)
    ensures Area(s, a, a, top) == 0
  {
  }

  lemma Lost(n: int, top: int, y: int)
    requires 0 < n && 0 < y
    ensures n * (top - y) < n * top
  {
    assert n * top - n * (top - y) == n * y;
    assert n * y > 0;
  }

  /** With ground at the right edge, best fit never puts a right end against the edge except where
      there is a node at the left end: the node under it, or the place that ends at the ground, is
      as low and loses less. */
  lemma RightEdgeLoses(s: seq<Seg>, w: int, h: int, height: int, x: int)
    requires ValidSky(s) && GroundLast(s) && 0 < w && h <= height && s[|s| - 2].y == 0
    requires 0 <= x && x + w == End(s) && IsBest(s, w, h, height, true, x)
    ensures s[IndexAt(s, x)].x == x
  {
    hide Increasing, GroundLast, TopAt, Waste, Area, Ranks;
    var g, i := s[|s| - 2].x, IndexAt(s, x);
    if g <= x {
      GroundTop(s, x, w);
      BestOnGround(s, w, h, height, true, x);
      IndexUnique(s, g, |s| - 2);
    } else if s[i].x < x {
      BeatenOnTheLeft(s, w, h, height, x);
    }
  }

  lemma BeatenOnTheLeft(s: seq<Seg>, w: int, h: int, height: int, x: int)
    requires ValidSky(s) && GroundLast(s) && 0 < w && h <= height && s[|s| - 2].y == 0
    requires 0 <= x < s[|s| - 2].x && x + w == End(s) && s[IndexAt(s, x)].x < x
    ensures !IsBest(s, w, h, height, true, x)
  {
    hide Increasing, TopAt, Waste, Area;
    var g, i := s[|s| - 2].x, IndexAt(s, x);
    var y := Max(s[i].x, g - w);
    Before(s, i);
    Before(s, |s| - 2);
    LeftOfGround(s, i);
    assert Candidate(s, w, true, y) by {
      assert y == s[i].x || s[|s| - 2].x == y + w;
    }
    forall c | y + w <= c < x + w ensures Height(s, c) == 0 {
      SegmentHeight(s, |s| - 2, c);
    }
    ShiftedTop(s, x, y, w);
    ShiftedArea(s, x, y, w, TopAt(s, w, x));
    ExactWaste(s, x, w);
    ExactWaste(s, y, w);
    assert !Ranks(s, w, true, x, y);
  }

  lemma LeftOfGround(s: seq<Seg>, i: nat)
    requires ValidSky(s) && GroundLast(s) && i < |s| - 1 && s[i].x < s[|s| - 2].x
    ensures s[i].y > 0
  {
  }

  lemma RoundedExact(w: int, align: int)
    requires 0 < align && w % align == 0
    ensures Rounded(w, align) == w
  {
    GridSum(Rounded(w, align), w, align);
  }

  /** A width on the grid is put on the grid, by either heuristic. */
  lemma ChosenOnGrid(t: Target, w: int, h: int, x: int)
    requires Good(t) && 0 < w && 0 < h && Chosen(t, w, h, x) && GroundLast(t.sky)
    requires OnGrid(t.sky, t.align) && EdgeOnGround(t.sky, t.align) && w % t.align == 0
    ensures x % t.align == 0
  {
    hide Safe, TopAt, Ranks, Increasing, GroundLast;
    var s := t.sky;
    RoundedExact(w, t.align);
    assert Candidate(s, w, t.bestFit, x);
    if n :| 0 <= n < |s| && s[n].x == x {
    } else {
      var n :| 0 <= n < |s| && s[n].x == x + w;
      if n == |s| - 1 && t.width % t.align != 0 {
        RightEdgeLoses(s, w, h, t.height, x);
      } else {
        GridSum(s[n].x, w, t.align);
      }
    }
  }

  lemma InsertKeepsEdge(s: seq<Seg>, i: nat, x: int, w: int, top: int)
    requires PlaceAt(s, i, x, w) && x + w < End(s) && s[|s| - 2].y == 0 && (s[i].x < x ==> s[i].y > 0)
    ensures var r := Insert(s, i, x, w, top); |r| >= 2 && r[|r| - 2].y == 0
  {
  }

  lemma EdgeKept(t: Target, w: int, h: int, x: int)
    requires Good(t) && 0 < w && 0 < h && Chosen(t, w, h, x) && GroundLast(t.sky)
    requires EdgeOnGround(t.sky, t.align) && x % t.align == 0 && w % t.align == 0
    ensures |After(t, w, h, x).sky| >= 2 && EdgeOnGround(After(t, w, h, x).sky, t.align)
  {
    hide Safe, Low, IsBest, Increasing, Insert, TopAt, GroundLast;
    ChosenPlaces(t, w, h, x);
    AfterSky(t, w, h, x);
    if t.width % t.align != 0 {
      GridSum(x, w, t.align);
      SplitRaised(t.sky, Rounded(w, t.align), h, t.height, t.bestFit, x);
      InsertKeepsEdge(t.sky, IndexAt(t.sky, x), x, w, TopAt(t.sky, Rounded(w, t.align), x) + h);
    }
  }

  lemma AfterOnGrid(t: Target, w: int, h: int, x: int)
    requires Good(t) && 0 < w && 0 < h && Chosen(t, w, h, x)
    requires OnGrid(t.sky, t.align) && x % t.align == 0 && w % t.align == 0
    ensures After(t, w, h, x).align == t.align && OnGrid(After(t, w, h, x).sky, t.align)
  {
    hide Safe, Low, Increasing, OnGrid, Chosen, Insert, TopAt;
    ChosenPlaces(t, w, h, x);
    GridSum(x, w, t.align);
    InsertOnGrid(t.sky, IndexAt(t.sky, x), x, w, TopAt(t.sky, Rounded(w, t.align), x) + h, t.align);
  }

  /** Widths that are multiples of the alignment keep the nodes on the grid. */
  lemma GridKept(t: Target, w: int, h: int, t': Target, at: Option<(int, int)>)
    requires Good(t) && 0 < w && 0 < h && PackStep(t, w, h, t', at) && GroundLast(t.sky)
    requires OnGrid(t.sky, t.align) && EdgeOnGround(t.sky, t.align) && w % t.align == 0
    ensures OnGrid(t'.sky, t.align) && |t'.sky| >= 2 && EdgeOnGround(t'.sky, t.align)
  {
    hide Safe, Low, Increasing, OnGrid, Chosen, After, GroundLast, EdgeOnGround;
    if at.Some? {
      ChosenOnGrid(t, w, h, at.value.0);
      AfterOnGrid(t, w, h, at.value.0);
      EdgeKept(t, w, h, at.value.0);
    }
  }

  /** On the grid the nodes the rounding is meant to guarantee are there. */
  lemma GridNodes(t: Target)
    requires Good(t) && OnGrid(t.sky, t.align) && t.width <= t.numNodes * t.align
    ensures 0 < t.free
  {
    var last := |t.sky| - 2;
    GridPosition(t.sky, t.align, last);
    Before(t.sky, last);
    if last >= t.numNodes {
      MulOrder(t.numNodes, last, t.align);
      assert false;
    }
  }

  lemma {:induction false} GridPosition(s: seq<Seg>, align: int, i: nat)
    requires ValidSky(s) && 0 < align && OnGrid(s, align) && i < |s| - 1
    ensures i * align <= s[i].x
  {
    if i > 0 {
      GridPosition(s, align, i - 1);
      Before(s, i - 1);
      GridGap(s[i - 1].x, s[i].x, align);
    }
  }

  lemma GridGap(a: int, b: int, m: int)
    requires 0 < m && a < b && a % m == 0 && b % m == 0
    ensures a + m <= b
  {
    GridSum(b, a, m);
    assert b - a == (b - a) / m * m;
    if (b - a) / m >= 1 { MulOrder(1, (b - a) / m, m); } else { MulOrder((b - a) / m, 0, m); }
  }

  /** Every run of widths that are multiples of the alignment keeps a node free, whichever heuristic is
      chosen at each step. */
  lemma {:induction false} GridRun(ts: seq<Target>, sizes: seq<(int, int)>, i: nat)
    requires Run(ts, sizes) && i < |ts|
    requires forall j :: 0 <= j < |ts| ==> ts[j].align == AlignFor(ts[0].width, ts[0].numNodes)
    requires forall j :: 0 <= j < |sizes| ==> sizes[j].0 % AlignFor(ts[0].width, ts[0].numNodes) == 0
    ensures |ts[i].sky| >= 2 && OnGrid(ts[i].sky, ts[i].align) && EdgeOnGround(ts[i].sky, ts[i].align)
    ensures 0 < ts[i].free
    decreases i
  {
    hide Good, OnGrid, EdgeOnGround, GroundLast, AlignFor, PackStep;
    RunGood(ts, sizes, i);
    RunGrows(ts, sizes, 0, i);
    if i == 0 {
      FreshOnGrid(ts[0]);
    } else {
      GridRun(ts, sizes, i - 1);
      RunGood(ts, sizes, i - 1);
      RunGroundLast(ts, sizes, i - 1);
      var t, w, h, t' := ts[i - 1], sizes[i - 1].0, sizes[i - 1].1, ts[i];
      assert Move(t, w, h, t');
      var a: int, bestFit: bool, at :| 0 < a && PackStep(Retuned(t, a, bestFit), w, h, t', at);
      StepKeepsTuning(Retuned(t, a, bestFit), w, h, t', at);
      GridKept(Retuned(t, a, bestFit), w, h, t', at);
    }
    GridNodes(ts[i]);
  }

  lemma FreshOnGrid(t: Target)
    requires Fresh(t)
    ensures |t.sky| >= 2 && OnGrid(t.sky, t.align) && EdgeOnGround(t.sky, t.align)
  {
  }

  lemma StepKeepsTuning(t: Target, w: int, h: int, t': Target, at: Option<(int, int)>)
    requires Good(t) && 0 < w && 0 < h && PackStep(t, w, h, t', at)
    ensures t'.align == t.align && t'.bestFit == t.bestFit && t'.width == t.width
  {
  }

  // ---------------------------------------------------------------- runs that break it

  /** Unit squares side by side on the ground: `k` columns of height 1, a node for each. */
  ghost function Squares(k: nat, width: int): (s: seq<Seg>)
    ensures |s| == k + 2 && s[k + 1] == Seg(width, SENTINEL)
    ensures forall i :: 0 <= i <= k ==> s[i] == Seg(i, if i < k then 1 else 0)
  {
    seq(k + 1, i => Seg(i, if i < k then 1 else 0)) + [Seg(width, SENTINEL)]
  }

  ghost function Row(k: nat): (p: seq<Placed>)
    ensures |p| == k
  {
    seq(k, i => Placed(i, 0, 1, 1))
  }

  /** A target of `n` nodes, sized as `setup_allow_out_of_mem` sizes it, after `k` unit squares. */
  ghost function WithSquares(width: int, height: int, n: nat, k: nat): Target
    requires 0 < width && 0 < n
  {
    Target(width, height, AlignFor(width, n), false, n, Squares(k, width), n - k, Row(k))
  }

  lemma SquaresHeight(k: nat, width: int)
    requires k < width
    ensures ValidSky(Squares(k, width)) && End(Squares(k, width)) == width
    ensures forall c :: 0 <= c < width ==> Height(Squares(k, width), c) == if c < k then 1 else 0
  {
    var s := Squares(k, width);
    forall c | 0 <= c < width ensures Height(s, c) == if c < k then 1 else 0 {
      SegmentHeight(s, if c < k then c else k, c);
    }
  }

  /** One more square, next to the others. */
  lemma InsertSquare(k: nat, width: int)
    requires k + 1 < width
    ensures Insert(Squares(k, width), k, k, 1, 1) == Squares(k + 1, width)
  {
    var s := Squares(k, width);
    assert SkipTo(s, k, k + 1) == k;
    assert s[k + 1..] == [Seg(width, SENTINEL)];
  }

  /** Bottom-left sets the next unit square on the ground beside the others, as long as there is room
      for the rounded width. */
  lemma SquareStep(width: int, height: int, n: nat, k: nat)
    requires 0 < width && 0 < n && k < n && 1 < AlignFor(width, n) && k + AlignFor(width, n) <= width
    requires Good(WithSquares(width, height, n, k))
    ensures PackStep(WithSquares(width, height, n, k), 1, 1, WithSquares(width, height, n, k + 1), Some((k, 0)))
  {
    hide Increasing, Height, Safe, IsBest, Insert, TopAt, MaxHeight, Low, AlignFor;
    var t, s := WithSquares(width, height, n, k), Squares(k, width);
    assert Rounded(1, t.align) == t.align;
    SquaresHeight(k, width);
    IndexUnique(s, k, k);
    GroundIsBest(s, t.align, 1, height, false);
    InsertSquare(k, width);
    assert Row(k) + [Placed(k, 0, 1, 1)] == Row(k + 1);
  }

  /** Fewer nodes than columns: there is room for one square per node. */
  lemma RoomForSquares(width: int, n: nat)
    requires 0 < n < width
    ensures 1 < AlignFor(width, n) && n - 1 + AlignFor(width, n) <= width
  {
    var a := AlignFor(width, n);
    if a <= 1 {
      MulOrder(a, 1, n);
    }
    MulOrder(0, a - 2, n - 1);
  }

  /** The squares packed so far, as a run. */
  ghost function SquareRun(width: int, height: int, n: nat, k: nat): (ts: seq<Target>)
    requires 0 < width && 0 < n
    ensures |ts| == k + 1 && forall i :: 0 <= i <= k ==> ts[i] == WithSquares(width, height, n, i)
  {
    seq(k + 1, i requires 0 <= i <= k => WithSquares(width, height, n, i))
  }

  ghost function Units(k: nat): (sizes: seq<(int, int)>)
    ensures |sizes| == k && forall i :: 0 <= i < k ==> sizes[i] == (1, 1)
  {
    seq(k, _ => (1, 1))
  }

  lemma {:induction false} SquaresRun(width: int, height: int, n: nat, k: nat)
    requires 0 < width < SENTINEL && 0 < height < SENTINEL && 0 < n < width && k <= n
    ensures Run(SquareRun(width, height, n, k), Units(k)) && Good(WithSquares(width, height, n, k))
  {
    hide Good, PackStep, Squares, Row, AlignFor;
    if k == 0 {
      NoSquares(width, height, n);
    } else {
      SquaresRun(width, height, n, k - 1);
      var ts, before := SquareRun(width, height, n, k), SquareRun(width, height, n, k - 1);
      var t, t' := WithSquares(width, height, n, k - 1), WithSquares(width, height, n, k);
      RoomForSquares(width, n);
      SquareStep(width, height, n, k - 1);
      StepKeepsGood(t, 1, 1, t', Some((k - 1, 0)));
      assert Retuned(t, t.align, t.bestFit) == t;
      assert Move(t, 1, 1, t');
      forall i | 0 <= i < k ensures Move(ts[i], Units(k)[i].0, Units(k)[i].1, ts[i + 1]) {
        if i < k - 1 {
          assert Move(before[i], Units(k - 1)[i].0, Units(k - 1)[i].1, before[i + 1]);
        }
      }
    }
  }

  lemma NoSquares(width: int, height: int, n: nat)
    requires 0 < width < SENTINEL && 0 < height < SENTINEL && 0 < n
    ensures Fresh(WithSquares(width, height, n, 0)) && Good(WithSquares(width, height, n, 0))
  {
    assert Squares(0, width) == [Seg(0, 0), Seg(width, SENTINEL)];
    FreshGood(WithSquares(width, height, n, 0));
  }

  /** No node is free although a rectangle fits. */
  ghost predicate Exhausted(t: Target, w: int, h: int) {
    Good(t) && 0 < w && 0 < h && t.free == 0 && exists x :: FitsAt(t, w, h, x)
  }

  /** A run of `n` nodes with the alignment that `setup_allow_out_of_mem(0)` sets, ending in a state
      where a rectangle that fits is turned away. */
  ghost predicate RunsShort(ts: seq<Target>, sizes: seq<(int, int)>, width: int, height: int, n: nat, w: int, h: int) {
    && 0 < width && 0 < n && Run(ts, sizes)
    && (forall i :: 0 <= i < |ts| ==> ts[i].align == AlignFor(width, n))
    && ts[0].width == width && ts[0].height == height && ts[0].numNodes == n
    && Exhausted(ts[|sizes|], w, h)
  }

  /** In height 1 a rectangle can only stand on the ground, and the ground holds a single node. */
  lemma GroundIsFree(s: seq<Seg>, x: int, w: int)
    requires ValidSky(s) && GroundLast(s) && 0 <= x && 0 < w && x + w <= End(s) && TopAt(s, w, x) == 0
    ensures |s| - 2 + w <= End(s)
  {
    hide Increasing, GroundLast, TopAt;
    OnGround(s, x, w);
    NodesAreColumns(s, |s| - 2);
  }

  /** When the promise of the rounding breaks, for every target and every number of nodes: some run
      leaves a rectangle that fits without a node if and only if there are fewer nodes than columns
      and, in a target of height 1, room for a rounded square beyond `n` unit squares. */
  lemma NodesRunOutIff(width: int, height: int, n: nat)
    requires 0 < width < SENTINEL && 0 < height < SENTINEL && 0 < n
    ensures (exists ts, sizes, w, h :: RunsShort(ts, sizes, width, height, n, w, h)) <==>
            n < width && (height > 1 || n + AlignFor(width, n) <= width)
  {
    hide RunsShort, AlignFor;
    forall ts, sizes, w, h | RunsShort(ts, sizes, width, height, n, w, h)
      ensures n < width && (height > 1 || n + AlignFor(width, n) <= width)
    {
      ShortRunNeeds(ts, sizes, width, height, n, w, h);
    }
    if n < width && (height > 1 || n + AlignFor(width, n) <= width) {
      NodesRunOut(width, height, n);
    }
  }

  lemma ShortRunNeeds(ts: seq<Target>, sizes: seq<(int, int)>, width: int, height: int, n: nat, w: int, h: int)
    requires RunsShort(ts, sizes, width, height, n, w, h)
    ensures n < width && (height > 1 || n + AlignFor(width, n) <= width)
  {
    hide Safe, Increasing, AlignFor, TopAt, GroundLast, Move;
    var t := ts[|sizes|];
    RunGrows(ts, sizes, 0, |sizes|);
    if t.width <= t.numNodes {
      EnoughNodes(t);
      assert false;
    }
    if height == 1 {
      RunGroundLast(ts, sizes, |sizes|);
      var x :| FitsAt(t, w, h, x);
      GroundIsFree(t.sky, x, Rounded(w, t.align));
      AtLeastOneUnit(w, t.align);
    }
  }

  lemma AtLeastOneUnit(w: int, align: int)
    requires 0 < w && 0 < align
    ensures align <= Rounded(w, align)
  {
  }

  /** Unit squares do it: after as many as there are nodes, the next one is turned away. */
  lemma NodesRunOut(width: int, height: int, n: nat)
    requires 0 < width < SENTINEL && 0 < height < SENTINEL && 0 < n < width
    requires height > 1 || n + AlignFor(width, n) <= width
    ensures RunsShort(SquareRun(width, height, n, n), Units(n), width, height, n, 1, 1)
  {
    hide Run, Good, AlignFor, TopAt, Height, Increasing, Squares, Row, Fresh;
    SquaresRun(width, height, n, n);
    RoomForSquares(width, n);
    NextFits(width, height, n);
  }

  lemma NextFits(width: int, height: int, n: nat)
    requires 0 < n < width && Good(WithSquares(width, height, n, n)) && AlignFor(width, n) <= width
    requires height > 1 || n + AlignFor(width, n) <= width
    ensures exists x :: FitsAt(WithSquares(width, height, n, n), 1, 1, x)
  {
    hide Safe, Increasing, Height, AlignFor;
    var t := WithSquares(width, height, n, n);
    assert Rounded(1, t.align) == t.align;
    SquaresHeight(n, width);
    if height > 1 {
      LowTop(t.sky, t.align, 0, 1);
      assert FitsAt(t, 1, 1, 0);
    } else {
      assert TopAt(t.sky, t.align, n) == 0;
      assert FitsAt(t, 1, 1, n);
    }
  }
}
