/** Which calls raise exactly the columns of the rectangle they place. The width searched for is rounded
    and the width put into the skyline is not; bottom-left never notices, best fit does when rounding adds
    three columns or more. */
module ExactPlacements {
  import opened Wrappers
  import opened Bytes
  import opened Skyline
  import opened Packing
  import opened WastedArea
  import opened Targets
  import opened Ground

  // ---------------------------------------------------------------- calls that are exact

  /** A rectangle right of a node, when it would fit at the node into the node's segment: there it is as
      low and loses nothing. */
  lemma NodeBeats(s: seq<Seg>, r: int, h: int, height: int, bestFit: bool, x: int)
    requires ValidSky(s) && 0 < r && 0 <= x && x + r <= End(s)
    requires s[IndexAt(s, x)].x < x && s[IndexAt(s, x)].x + r <= s[IndexAt(s, x) + 1].x
    ensures !IsBest(s, r, h, height, bestFit, x)
  {
    hide Increasing, TopAt, Waste, Area, Height;
    var i := IndexAt(s, x);
    Before(s, i);
    Before(s, i + 1);
    AtNode(s, i, r);
    SegmentHeight(s, i, x);
    HeightBelowTop(s, r, x);
    NoLess(s, x, r);
    assert !Ranks(s, r, bestFit, x, s[i].x);
    assert Candidate(s, r, bestFit, s[i].x);
  }

  /** Bottom-left only takes nodes. */
  lemma LeftAtNode(s: seq<Seg>, r: int, x: int)
    requires ValidSky(s) && 0 < r && Candidate(s, r, false, x)
    ensures 0 <= x < End(s) && s[IndexAt(s, x)].x == x
  {
    Ordered(s);
  }

  lemma AtNode(s: seq<Seg>, i: nat, r: int)
    requires ValidSky(s) && i < |s| - 1 && 0 < r && s[i].x + r <= s[i + 1].x <= End(s) && 0 <= s[i].x
    ensures TopAt(s, r, s[i].x) == s[i].y && Waste(s, s[i].x, r) == 0
  {
    hide Increasing, Height, Waste;
    var x := s[i].x;
    IndexUnique(s, x, i);
    forall c | x <= c < x + r ensures Height(s, c) == s[i].y {
      SegmentHeight(s, i, c);
    }
    WasteIsAreaIff(s, x, r);
    AreaExtend(s, x, x, x + r, s[i].y, s[i].y);
  }

  lemma NoLess(s: seq<Seg>, x: int, r: int)
    requires ValidSky(s) && 0 <= x && 0 < r && x + r <= End(s)
    ensures 0 <= Waste(s, x, r)
  {
    hide Increasing, Height, Waste, Area, MaxHeight;
    WasteOverCounts(s, x, r);
    AreaNotNegative(s, x, x + r, MaxHeight(s, x, x + r));
  }

  lemma BestIsCandidate(t: Target, w: int, h: int, x: int)
    requires Good(t) && 0 < w && 0 < h && Chosen(t, w, h, x)
    ensures Candidate(t.sky, Rounded(w, t.align), t.bestFit, x)
    ensures IsBest(t.sky, Rounded(w, t.align), h, t.height, t.bestFit, x)
  {
  }

  /** What a caller can rely on: with bottom-left, and whenever rounding adds at most two columns, exactly
      the columns of the rectangle rise. */
  lemma NearlyRounded(t: Target, w: int, h: int, t': Target, x: int, y: int)
    requires Good(t) && 0 < w && 0 < h && PackStep(t, w, h, t', Some((x, y)))
    requires !t.bestFit || Rounded(w, t.align) <= w + 2
    ensures RaisesExactly(t, w, h, t', x, y)
  {
    hide IsBest, Safe, Low, TopAt, Insert, Increasing, RaisesExactly;
    ChosenPlaces(t, w, h, x);
    ExactHeightMapIff(t, w, h, t', x, y);
    BestIsCandidate(t, w, h, x);
    if !t.bestFit {
      LeftAtNode(t.sky, Rounded(w, t.align), x);
    } else if InsideSegment(t.sky, x, w) {
      NodeBeats(t.sky, Rounded(w, t.align), h, t.height, t.bestFit, x);
    }
  }

  // ---------------------------------------------------------------- calls that are not

  /** A best-fit run on a target whose alignment is the one `setup_allow_out_of_mem` sets, and a placement
      at its end that raises other columns too. */
  ghost predicate TakesTooMuch(ts: seq<Target>, sizes: seq<(int, int)>, align: int, w: int, h: int, t': Target,
                               x: int, y: int) {
    && Run(ts, sizes) && AlignFor(ts[0].width, ts[0].numNodes) == align
    && (forall i :: 0 <= i < |ts| ==> ts[i].align == align && ts[i].bestFit)
    && var t := ts[|sizes|];
       Good(t) && 0 < w && 0 < h && PackStep(t, w, h, t', Some((x, y))) && !RaisesExactly(t, w, h, t', x, y)
  }

  /** Three rectangles that leave room for a fourth, of width `w`, inside the first one's segment: a base
      one column short of spoiling that, a step, and a tower. */
  ghost function Skies(r: int, a: int, w: int, k: nat): (s: seq<Seg>)
    requires k <= 3
  {
    var edge := Seg(r + 3 * a, SENTINEL);
    if k == 0 then [Seg(0, 0), edge]
    else if k == 1 then [Seg(0, 1), Seg(w + 2, 0), edge]
    else if k == 2 then [Seg(0, 1), Seg(w + 2, 2), Seg(r + 1, 0), edge]
    else [Seg(0, 1), Seg(w + 2, 2), Seg(r + 1, 3), Seg(r + 1 + 2 * a, 0), edge]
  }

  ghost function Laid(r: int, a: int, w: int): (p: seq<Placed>) {
    [Placed(0, 0, w + 2, 1), Placed(w + 2, 0, r - 1 - w, 2), Placed(r + 1, 0, 2 * a, 3)]
  }

  ghost function Nodes(r: int, a: int): int
    requires 0 < a
  {
    r / a + 3
  }

  ghost function Stage(r: int, a: int, w: int, k: nat): Target
    requires k <= 3 && 0 < a
  {
    Target(r + 3 * a, 3, a, true, Nodes(r, a), Skies(r, a, w, k), Nodes(r, a) + 2 - |Skies(r, a, w, k)|,
           Laid(r, a, w)[..k])
  }

  /** What is assumed of the sizes: `r` is `w` rounded, three columns or more wider. */
  ghost predicate Shape(r: int, a: int, w: int) {
    && 0 < w && w + 3 <= r < w + a && r % a == 0 && r + 3 * a < SENTINEL
  }

  lemma ShapeFacts(r: int, a: int, w: int)
    requires Shape(r, a, w)
    ensures 0 < a <= r && 4 <= Nodes(r, a) && AlignFor(r + 3 * a, Nodes(r, a)) == a
    ensures Rounded(w, a) == r && Rounded(w + 2, a) == r && Rounded(r - 1 - w, a) == a && Rounded(2 * a, a) == 2 * a
  {
    var m := r / a;
    assert r == m * a;
    if m < 1 { MulOrder(m, 0, a); }
    MulOrder(1, m, a);
    RoundedIs(w, a, m);
    RoundedIs(w + 2, a, m);
    RoundedIs(r - 1 - w, a, 1);
    RoundedIs(2 * a, a, 2);
    assert (m + 3) * a == r + 3 * a;
    AlignIs(r + 3 * a, m + 3, a);
  }

  lemma RoundedIs(w: int, a: int, m: int)
    requires 0 < a && w <= m * a < w + a
    ensures Rounded(w, a) == m * a
  {
    var up := w + a - 1;
    DivModUnique(up, a, m, up - m * a);
  }

  lemma AlignIs(width: int, n: int, a: int)
    requires 0 < n && 0 < a && width == n * a
    ensures AlignFor(width, n) == a
  {
    var b := AlignFor(width, n);
    if b < a { MulOrder(b + 1, a, n); }
    if b > a { MulOrder(a, b - 1, n); }
  }

  /** A rectangle set on the first column of the ground. */
  lemma GroundStep(t: Target, w: int, h: int, t': Target)
    requires Good(t) && GroundLast(t.sky) && 0 < w && 0 < h && h <= t.height && 0 < t.free
    requires t.sky[|t.sky| - 2].y == 0 && t.sky[|t.sky| - 2].x + Rounded(w, t.align) <= t.width
    requires var g := t.sky[|t.sky| - 2].x;
             var sky := Insert(t.sky, |t.sky| - 2, g, w, h);
             t' == t.(sky := sky, free := t.numNodes + 2 - |sky|, placed := t.placed + [Placed(g, 0, w, h)])
    ensures PackStep(t, w, h, t', Some((t.sky[|t.sky| - 2].x, 0))) && Good(t') && GroundLast(t'.sky)
  {
    hide Safe, Low, IsBest, TopAt, Insert, Increasing, GroundLast;
    var s, g := t.sky, t.sky[|t.sky| - 2].x;
    GroundIsBest(s, Rounded(w, t.align), h, t.height, t.bestFit);
    Before(s, |s| - 2);
    IndexUnique(s, g, |s| - 2);
    assert Chosen(t, w, h, g);
    assert t' == After(t, w, h, g);
    StepKeepsGood(t, w, h, t', Some((g, 0)));
    StepGroundLast(t, w, h, t', Some((g, 0)));
  }

  ghost function SizeOf(r: int, a: int, w: int, k: nat): (int, int)
    requires k < 3
  {
    if k == 0 then (w + 2, 1) else if k == 1 then (r - 1 - w, 2) else (2 * a, 3)
  }

  lemma StageInsert(r: int, a: int, w: int, k: nat)
    requires Shape(r, a, w) && k < 3
    ensures var s := Skies(r, a, w, k);
            Insert(s, |s| - 2, s[|s| - 2].x, SizeOf(r, a, w, k).0, SizeOf(r, a, w, k).1) == Skies(r, a, w, k + 1)
  {
    hide Insert, Rounded, AlignFor, Nodes;
    ShapeFacts(r, a, w);
    InsertAtGround(Skies(r, a, w, k), SizeOf(r, a, w, k).0, SizeOf(r, a, w, k).1);
  }

  lemma InsertAtGround(s: seq<Seg>, w: int, h: int)
    requires |s| >= 2 && 0 < w && s[|s| - 2].x + w < s[|s| - 1].x
    ensures var i := |s| - 2;
            Insert(s, i, s[i].x, w, h) == s[..i] + [Seg(s[i].x, h), Seg(s[i].x + w, s[i].y), s[i + 1]]
  {
    var i := |s| - 2;
    assert SkipTo(s, i, s[i].x + w) == i;
    assert s[i + 1..] == [s[i + 1]];
  }

  lemma StageStep(r: int, a: int, w: int, k: nat)
    requires Shape(r, a, w) && k < 3 && Good(Stage(r, a, w, k)) && GroundLast(Skies(r, a, w, k))
    ensures var size := SizeOf(r, a, w, k); var g := Skies(r, a, w, k)[|Skies(r, a, w, k)| - 2].x;
            && 0 < size.0 && 0 < size.1
            && PackStep(Stage(r, a, w, k), size.0, size.1, Stage(r, a, w, k + 1), Some((g, 0)))
    ensures Good(Stage(r, a, w, k + 1)) && GroundLast(Skies(r, a, w, k + 1))
  {
    hide Good, Insert, GroundLast, Rounded, Nodes, PackStep;
    ShapeFacts(r, a, w);
    StageInsert(r, a, w, k);
    var t, t', size := Stage(r, a, w, k), Stage(r, a, w, k + 1), SizeOf(r, a, w, k);
    assert Laid(r, a, w)[..k + 1] == Laid(r, a, w)[..k] + [Laid(r, a, w)[k]];
    GroundStep(t, size.0, size.1, t');
  }

  lemma {:induction false} StagesRun(r: int, a: int, w: int, k: nat)
    requires Shape(r, a, w) && k <= 3
    ensures Good(Stage(r, a, w, k)) && GroundLast(Skies(r, a, w, k))
    ensures k < 3 ==> var size := SizeOf(r, a, w, k);
                      Move(Stage(r, a, w, k), size.0, size.1, Stage(r, a, w, k + 1))
  {
    hide Good, GroundLast, PackStep, Skies, Laid, Nodes;
    ShapeFacts(r, a, w);
    if k == 0 {
      StageZero(r, a, w);
    } else {
      StagesRun(r, a, w, k - 1);
      StageStep(r, a, w, k - 1);
    }
    if k < 3 {
      StageStep(r, a, w, k);
      var t := Stage(r, a, w, k);
      assert Retuned(t, t.align, t.bestFit) == t;
    }
  }

  lemma StageZero(r: int, a: int, w: int)
    requires Shape(r, a, w)
    ensures Fresh(Stage(r, a, w, 0)) && Good(Stage(r, a, w, 0)) && GroundLast(Skies(r, a, w, 0))
  {
    ShapeFacts(r, a, w);
    FreshGood(Stage(r, a, w, 0));
  }

  /** The heights of the last stage, as far as the fourth rectangle meets them. */
  lemma LastHeights(r: int, a: int, w: int)
    requires Shape(r, a, w) && ValidSky(Skies(r, a, w, 3)) && End(Skies(r, a, w, 3)) == r + 3 * a
    ensures var s := Skies(r, a, w, 3);
            && IndexAt(s, 0) == 0 && IndexAt(s, 1) == 0
            && (forall c :: 0 <= c < w + 2 ==> Height(s, c) == 1)
            && (forall c :: w + 2 <= c < r + 1 ==> Height(s, c) == 2)
            && (forall c :: r + 1 <= c < r + 1 + 2 * a ==> Height(s, c) == 3)
  {
    hide Height, Increasing;
    ShapeFacts(r, a, w);
    var s := Skies(r, a, w, 3);
    IndexUnique(s, 0, 0);
    IndexUnique(s, 1, 0);
    forall c | 0 <= c < w + 2 ensures Height(s, c) == 1 { SegmentHeight(s, 0, c); }
    forall c | w + 2 <= c < r + 1 ensures Height(s, c) == 2 { SegmentHeight(s, 1, c); }
    forall c | r + 1 <= c < r + 1 + 2 * a ensures Height(s, c) == 3 { SegmentHeight(s, 2, c); }
  }

  /** The area and the height under a range that covers `n` columns of height 1 and then some of height 2. */
  lemma TwoSteps(s: seq<Seg>, x: int, n: int, w: int)
    requires ValidSky(s) && 0 <= x && 0 < n < w && x + w <= End(s)
    requires forall c :: x <= c < x + n ==> Height(s, c) == 1
    requires forall c :: x + n <= c < x + w ==> Height(s, c) == 2
    ensures TopAt(s, w, x) == 2 && Area(s, x, x + w, 2) == n
  {
    hide Height, Increasing, Area, MaxHeight;
    NoHeight(s, x);
    MaxHeightExtend(s, x, x, x + n, 1);
    MaxHeightExtend(s, x, x + n, x + w, 2);
    AreaExtend(s, x, x, x + n, 2, 1);
    AreaExtend(s, x, x + n, x + w, 2, 2);
  }

  /** At the left edge one more column is lost than next to it. */
  lemma LastWaste(r: int, a: int, w: int, x: int)
    requires Shape(r, a, w) && (x == 0 || x == 1)
    requires ValidSky(Skies(r, a, w, 3)) && End(Skies(r, a, w, 3)) == r + 3 * a && GroundLast(Skies(r, a, w, 3))
    ensures 0 < a && TopAt(Skies(r, a, w, 3), r, x) == 2 && Waste(Skies(r, a, w, 3), x, r) == w + 2 - x
  {
    hide Height, Increasing, Waste, GroundLast, Skies, Area, MaxHeight, ValidSky;
    ShapeFacts(r, a, w);
    LastHeights(r, a, w);
    TwoSteps(Skies(r, a, w, 3), x, w + 2 - x, r);
    ExactWaste(Skies(r, a, w, 3), x, r);
  }

  lemma NoHeight(s: seq<Seg>, x: int)
    requires ValidSky(s) && 0 <= x <= End(s)
    ensures MaxHeight(s, x, x) == 0 && Area(s, x, x, 2) == 0
  {
  }

  /** Every other candidate meets the tower. */
  lemma OnlyTwo(r: int, a: int, w: int, x: int)
    requires Shape(r, a, w) && ValidSky(Skies(r, a, w, 3)) && End(Skies(r, a, w, 3)) == r + 3 * a
    requires 0 < r && Admissible(Skies(r, a, w, 3), r, 1, 3, true, x)
    ensures x == 0 || x == 1
  {
    hide Height, Increasing, Waste;
    ShapeFacts(r, a, w);
    LastHeights(r, a, w);
    var s := Skies(r, a, w, 3);
    assert x == 0 || x == 1 || x == w + 2 || x == r + 1 || x == 1 + 2 * a || x == 3 * a;
    if x != 0 && x != 1 {
      Under(s, r, x, if x <= r + 1 then r + 1 else x);
    }
  }

  lemma Under(s: seq<Seg>, w: int, x: int, c: int)
    requires ValidSky(s) && 0 <= x && 0 < w && x + w <= End(s) && x <= c < x + w
    ensures Height(s, c) <= TopAt(s, w, x)
  {
  }

  lemma LastBest(r: int, a: int, w: int)
    requires Shape(r, a, w)
    requires ValidSky(Skies(r, a, w, 3)) && End(Skies(r, a, w, 3)) == r + 3 * a && GroundLast(Skies(r, a, w, 3))
    ensures TopAt(Skies(r, a, w, 3), r, 1) == 2 && IsBest(Skies(r, a, w, 3), r, 1, 3, true, 1)
  {
    hide Increasing, TopAt, Waste, GroundLast;
    ShapeFacts(r, a, w);
    LastWaste(r, a, w, 0);
    LastWaste(r, a, w, 1);
    var s := Skies(r, a, w, 3);
    assert s[2].x == 1 + r;
    forall x | Admissible(s, r, 1, 3, true, x) ensures Ranks(s, r, true, 1, x) {
      OnlyTwo(r, a, w, x);
    }
  }

  lemma LastStep(r: int, a: int, w: int) returns (t': Target)
    requires Shape(r, a, w) && Good(Stage(r, a, w, 3)) && GroundLast(Skies(r, a, w, 3))
    ensures PackStep(Stage(r, a, w, 3), w, 1, t', Some((1, 2)))
    ensures !RaisesExactly(Stage(r, a, w, 3), w, 1, t', 1, 2)
  {
    hide Safe, Low, Increasing, TopAt, IsBest, Insert, GroundLast, Rounded, RaisesExactly;
    ShapeFacts(r, a, w);
    var t := Stage(r, a, w, 3);
    LastBest(r, a, w);
    LastHeights(r, a, w);
    assert Chosen(t, w, 1, 1);
    t' := After(t, w, 1, 1);
    ExactHeightMapIff(t, w, 1, t', 1, 2);
  }

  ghost function Stages(r: int, a: int, w: int): (ts: seq<Target>)
    requires 0 < a
  {
    [Stage(r, a, w, 0), Stage(r, a, w, 1), Stage(r, a, w, 2), Stage(r, a, w, 3)]
  }

  ghost function SizesOf(r: int, a: int, w: int): (sizes: seq<(int, int)>) {
    [SizeOf(r, a, w, 0), SizeOf(r, a, w, 1), SizeOf(r, a, w, 2)]
  }

  /** When rounding adds three columns or more, some run ends in a placement that raises a column beside
      the rectangle. */
  lemma WiderThanTheRectangle(align: int, w: int) returns (t': Target)
    requires 0 < align && 0 < w && w + 3 <= Rounded(w, align) && Rounded(w, align) + 3 * align < SENTINEL
    ensures var r := Rounded(w, align);
            TakesTooMuch(Stages(r, align, w), SizesOf(r, align, w), align, w, 1, t', 1, 2)
  {
    hide Good, GroundLast, PackStep, RaisesExactly, Skies, Laid, Nodes, Move, AlignFor, Fresh;
    var r := Rounded(w, align);
    ShapeFacts(r, align, w);
    StageZero(r, align, w);
    StagesRun(r, align, w, 0);
    StagesRun(r, align, w, 1);
    StagesRun(r, align, w, 2);
    StagesRun(r, align, w, 3);
    t' := LastStep(r, align, w);
  }

  /** For every alignment and every width: best fit raises exactly the columns of the rectangle in all runs
      if and only if rounding the width adds at most two columns (wherever a target has room to tell). */
  lemma ExactPlacementIff(align: int, w: int)
    requires 0 < align && 0 < w && Rounded(w, align) + 3 * align < SENTINEL
    ensures (forall ts, sizes, h, t', x, y :: !TakesTooMuch(ts, sizes, align, w, h, t', x, y)) <==>
            Rounded(w, align) <= w + 2
  {
    hide TakesTooMuch, Rounded;
    if Rounded(w, align) <= w + 2 {
      forall ts, sizes, h, t', x, y ensures !TakesTooMuch(ts, sizes, align, w, h, t', x, y) {
        if TakesTooMuch(ts, sizes, align, w, h, t', x, y) {
          NeverTooMuch(ts, sizes, align, w, h, t', x, y);
        }
      }
    } else {
      var t' := WiderThanTheRectangle(align, w);
    }
  }

  lemma NeverTooMuch(ts: seq<Target>, sizes: seq<(int, int)>, align: int, w: int, h: int, t': Target, x: int, y: int)
    requires TakesTooMuch(ts, sizes, align, w, h, t', x, y)
    ensures 0 < align && w + 2 < Rounded(w, align)
  {
    hide Safe, Chosen, RaisesExactly, Move;
    if Rounded(w, align) <= w + 2 {
      NearlyRounded(ts[|sizes|], w, h, t', x, y);
    }
  }
}
