/** A target being packed, step by step: no overlaps, no lost nodes, and the exact effect of a
    placement on the height map. */
module Targets {
  import opened Wrappers
  import opened Bytes
  import opened Skyline
  import opened Packing

  /** A rectangle that has been given a place. */
  datatype Placed = Placed(x: int, y: int, w: int, h: int)

  datatype Target = Target(
    width: int, height: int, align: int, bestFit: bool, numNodes: int,
    sky: seq<Seg>, free: int, placed: seq<Placed>)

  // ---------------------------------------------------------------- safety

  ghost predicate Inside(p: Placed, width: int, height: int) {
    0 < p.w && 0 < p.h && 0 <= p.x && p.x + p.w <= width && 0 <= p.y && p.y + p.h <= height
  }

  ghost predicate Disjoint(p: Placed, q: Placed) {
    p.x + p.w <= q.x || q.x + q.w <= p.x || p.y + p.h <= q.y || q.y + q.h <= p.y
  }

  /** The skyline is nowhere below the top of `p`. */
  ghost predicate Covered(p: Placed, s: seq<Seg>)
    requires ValidSky(s)
  {
    0 <= p.x && p.x + p.w <= End(s) && forall c :: p.x <= c < p.x + p.w ==> p.y + p.h <= Height(s, c)
  }

  ghost predicate Safe(t: Target)
    requires ValidSky(t.sky)
  {
    && (forall i :: 0 <= i < |t.placed| ==> Inside(t.placed[i], t.width, t.height) && Covered(t.placed[i], t.sky))
    && (forall i, j :: 0 <= i < j < |t.placed| ==> Disjoint(t.placed[i], t.placed[j]))
  }

  /** No column is higher than the target. */
  ghost predicate Low(s: seq<Seg>, height: int) {
    forall i :: 0 <= i < |s| - 1 ==> s[i].y <= height
  }

  /** What every reachable target satisfies. Coordinates stay below the sentinel's height 1 << 30,
      so that no sum of two of them leaves a 32-bit integer. */
  ghost predicate Good(t: Target) {
    && 0 < t.width < SENTINEL && 0 < t.height < SENTINEL && 0 < t.align && 0 < t.numNodes
    && ValidSky(t.sky) && End(t.sky) == t.width && Low(t.sky, t.height)
    && 0 <= t.free && |t.sky| + t.free == t.numNodes + 2
    && Safe(t)
  }

  // ---------------------------------------------------------------- one rectangle

  /** The checks of `pack_rectangle` let `x` through. */
  ghost predicate Chosen(t: Target, w: int, h: int, x: int)
    requires Good(t) && 0 < w
  {
    var r := Rounded(w, t.align);
    && r <= t.width && h <= t.height && 0 < t.free
    && IsBest(t.sky, r, h, t.height, t.bestFit, x)
    && TopAt(t.sky, r, x) + h <= t.height
  }

  /** The rectangle at `x` under the skyline, and the skyline with it. The unrounded width is used. */
  ghost function After(t: Target, w: int, h: int, x: int): Target
    requires Good(t) && 0 < w && 0 <= x && x + Rounded(w, t.align) <= t.width
  {
    var y := TopAt(t.sky, Rounded(w, t.align), x);
    var sky := Insert(t.sky, IndexAt(t.sky, x), x, w, y + h);
    t.(sky := sky, free := t.numNodes + 2 - |sky|, placed := t.placed + [Placed(x, y, w, h)])
  }

  /** One call of `pack_rectangle`. */
  ghost predicate PackStep(t: Target, w: int, h: int, t': Target, at: Option<(int, int)>)
    requires Good(t) && 0 < w && 0 < h
  {
    match at
    case None => t' == t && forall x :: !Chosen(t, w, h, x)
    case Some(p) =>
      && Chosen(t, w, h, p.0) && p.1 == TopAt(t.sky, Rounded(w, t.align), p.0)
      && t' == After(t, w, h, p.0)
  }

  lemma ChosenPlaces(t: Target, w: int, h: int, x: int)
    requires Good(t) && 0 < w && 0 < h && Chosen(t, w, h, x)
    ensures 0 <= x && x + Rounded(w, t.align) <= t.width && x + w <= t.width
    ensures PlaceAt(t.sky, IndexAt(t.sky, x), x, w)
  {
  }

  lemma AfterSky(t: Target, w: int, h: int, x: int)
    requires Good(t) && 0 < w && 0 < h && Chosen(t, w, h, x)
    ensures var t' := After(t, w, h, x);
            ValidSky(t'.sky) && End(t'.sky) == t.width && Low(t'.sky, t.height)
  {
    hide IsBest, Safe, Increasing;
    ChosenPlaces(t, w, h, x);
    var i, y := IndexAt(t.sky, x), TopAt(t.sky, Rounded(w, t.align), x);
    InsertValid(t.sky, i, x, w, y + h);
    LowAfterInsert(t.sky, i, x, w, y + h, t.height);
  }

  lemma LowAfterInsert(s: seq<Seg>, i: nat, x: int, w: int, top: int, height: int)
    requires PlaceAt(s, i, x, w) && Low(s, height) && top <= height
    ensures Low(Insert(s, i, x, w, top), height)
  {
    var k := Kept(s, i, x);
    var j := SkipTo(s, k, x + w);
    var r := Insert(s, i, x, w, top);
    forall n | 0 <= n < |r| - 1 ensures r[n].y <= height {
      assert r[n].y == if n < k then s[n].y else if n == k then top else s[n - k - 1 + j].y;
    }
  }

  /** The height map after a placement: the rectangle's columns rise to its top, and every other
      column keeps its height, except those that `InsertEnd` gives away. */
  lemma AfterHeight(t: Target, w: int, h: int, x: int, c: int)
    requires Good(t) && 0 < w && 0 < h && Chosen(t, w, h, x) && 0 <= c < t.width
    ensures var t', i := After(t, w, h, x), IndexAt(t.sky, x);
            ValidSky(t'.sky) && End(t'.sky) == t.width &&
            Height(t'.sky, c) ==
            if x <= c < InsertEnd(t.sky, i, x, w) then TopAt(t.sky, Rounded(w, t.align), x) + h
            else Height(t.sky, c)
  {
    hide IsBest, Safe, Increasing, Insert, InsertEnd;
    AfterSky(t, w, h, x);
    ChosenPlaces(t, w, h, x);
    InsertHeight(t.sky, IndexAt(t.sky, x), x, w, TopAt(t.sky, Rounded(w, t.align), x) + h, c);
  }

  /** Where the new node ends: at the right end of the rectangle, unless a rectangle placed against
      a node by its rounded right end is really narrower and ends before that node. */
  lemma ExactEnd(t: Target, w: int, h: int, x: int)
    requires Good(t) && 0 < w && 0 < h && Chosen(t, w, h, x)
    ensures var i, r := IndexAt(t.sky, x), Rounded(w, t.align);
            && InsertEnd(t.sky, i, x, w) <= x + r
            && (w == r || t.sky[i].x == x ==> InsertEnd(t.sky, i, x, w) == x + w)
  {
    hide Safe, Low, TopAt, Ranks, Increasing;
    var s, r, i := t.sky, Rounded(w, t.align), IndexAt(t.sky, x);
    if s[i].x < x {
      assert Candidate(s, r, t.bestFit, x);
      Ordered(s);
      assert forall n :: 0 <= n < |s| ==> s[n].x != x;
      var n :| 0 <= n < |s| && s[n].x == x + r;
      assert i < n;
      assert s[i + 1].x <= s[n].x;
    }
  }

  lemma RoundedByOne(w: int)
    ensures Rounded(w, 1) == w
  {
  }

  /** With align 1 a placement sets exactly the columns of the rectangle. */
  lemma ExactHeightMap(t: Target, w: int, h: int, t': Target, x: int, y: int, c: int)
    requires Good(t) && 0 < w && 0 < h && t.align == 1 && PackStep(t, w, h, t', Some((x, y))) && 0 <= c < t.width
    ensures ValidSky(t'.sky) && End(t'.sky) == t.width
    ensures Height(t'.sky, c) == if x <= c < x + w then y + h else Height(t.sky, c)
  {
    hide IsBest, Safe, Height, TopAt, Insert, InsertEnd;
    RoundedByOne(w);
    ExactEnd(t, w, h, x);
    AfterHeight(t, w, h, x, c);
  }

  // ---------------------------------------------------------------- no overlap

  /** A rectangle set down on the skyline meets nothing that the skyline covers. */
  lemma NewIsDisjoint(s: seq<Seg>, p: Placed, q: Placed, r: int)
    requires ValidSky(s) && Covered(p, s) && 0 < p.w
    requires 0 < q.w <= r && 0 <= q.x && q.x + r <= End(s) && q.y == TopAt(s, r, q.x)
    ensures Disjoint(p, q)
  {
    hide Height, MaxHeight;
    var c := Max(p.x, q.x);
    if c < p.x + p.w && c < q.x + q.w {
      assert p.y + p.h <= Height(s, c);
      assert Height(s, c) <= MaxHeight(s, q.x, q.x + r);
    }
  }

  /** No column sinks. */
  lemma NothingSinks(t: Target, w: int, h: int, x: int, c: int)
    requires Good(t) && 0 < w && 0 < h && Chosen(t, w, h, x) && 0 <= c < t.width
    ensures ValidSky(After(t, w, h, x).sky) && End(After(t, w, h, x).sky) == t.width
    ensures Height(t.sky, c) <= Height(After(t, w, h, x).sky, c)
  {
    hide IsBest, Safe, Insert, InsertEnd, Height, Increasing;
    ChosenPlaces(t, w, h, x);
    AfterHeight(t, w, h, x, c);
    ExactEnd(t, w, h, x);
    assert c < x + Rounded(w, t.align) && x <= c ==> Height(t.sky, c) <= TopAt(t.sky, Rounded(w, t.align), x);
  }

  lemma AfterSafe(t: Target, w: int, h: int, x: int)
    requires Good(t) && 0 < w && 0 < h && Chosen(t, w, h, x)
    requires ValidSky(After(t, w, h, x).sky) && End(After(t, w, h, x).sky) == t.width
    ensures Safe(After(t, w, h, x))
  {
    hide IsBest, Insert, InsertEnd, Height, Increasing, Disjoint;
    ChosenPlaces(t, w, h, x);
    var t' := After(t, w, h, x);
    var n := |t.placed|;
    var q := t'.placed[n];
    forall i | 0 <= i <= n ensures Inside(t'.placed[i], t.width, t.height) && Covered(t'.placed[i], t'.sky) {
      var p := t'.placed[i];
      assert i < n ==> p == t.placed[i];
      forall c | p.x <= c < p.x + p.w ensures p.y + p.h <= Height(t'.sky, c) {
        if i < n { NothingSinks(t, w, h, x, c); } else {
          AfterHeight(t, w, h, x, c);
          EndReaches(t.sky, IndexAt(t.sky, x), x, w);
        }
      }
    }
    forall i | 0 <= i < n ensures Disjoint(t'.placed[i], q) {
      NewIsDisjoint(t.sky, t.placed[i], q, Rounded(w, t.align));
    }
  }

  lemma EndReaches(s: seq<Seg>, i: nat, x: int, w: int)
    requires i < |s| - 1
    ensures x + w <= InsertEnd(s, i, x, w)
  {
  }

  /** Linking in a node uses one free node and frees those that are passed. */
  lemma InsertLength(s: seq<Seg>, i: nat, x: int, w: int, top: int)
    requires i < |s| - 1
    ensures 2 <= |Insert(s, i, x, w, top)| <= |s| + 1
  {
  }

  /** Every step keeps everything. */
  lemma StepKeepsGood(t: Target, w: int, h: int, t': Target, at: Option<(int, int)>)
    requires Good(t) && 0 < w && 0 < h && PackStep(t, w, h, t', at)
    ensures Good(t')
  {
    hide Safe, Low, ValidSky, IsBest, Insert;
    if at.Some? {
      var x := at.value.0;
      ChosenPlaces(t, w, h, x);
      AfterSky(t, w, h, x);
      AfterSafe(t, w, h, x);
      InsertLength(t.sky, IndexAt(t.sky, x), x, w, TopAt(t.sky, Rounded(w, t.align), x) + h);
    }
  }

  /** The columns of the rectangle rise to its top, and no other column changes. */
  ghost predicate RaisesExactly(t: Target, w: int, h: int, t': Target, x: int, y: int)
    requires ValidSky(t.sky) && End(t.sky) == t.width
  {
    && ValidSky(t'.sky) && End(t'.sky) == t.width
    && forall c :: 0 <= c < t.width ==> Height(t'.sky, c) == if x <= c < x + w then y + h else Height(t.sky, c)
  }

  /** The left end splits a segment that the right end does not reach the end of. */
  ghost predicate InsideSegment(s: seq<Seg>, x: int, w: int)
    requires ValidSky(s) && 0 <= x < End(s)
  {
    s[IndexAt(s, x)].x < x && x + w < s[IndexAt(s, x) + 1].x
  }

  /** For any `align`, the columns set are exactly those of the rectangle, except when it lies inside a
      segment; then the rest of that segment rises too. */
  lemma ExactHeightMapIff(t: Target, w: int, h: int, t': Target, x: int, y: int)
    requires Good(t) && 0 < w && 0 < h && PackStep(t, w, h, t', Some((x, y)))
    ensures 0 <= x < t.width
    ensures RaisesExactly(t, w, h, t', x, y) <==> !InsideSegment(t.sky, x, w)
  {
    hide IsBest, Safe, Height, TopAt, Insert, Increasing;
    ChosenPlaces(t, w, h, x);
    var i := IndexAt(t.sky, x);
    AfterSky(t, w, h, x);
    if InsideSegment(t.sky, x, w) {
      var c := x + w;
      Before(t.sky, i + 1);
      AfterHeight(t, w, h, x, c);
      SegmentHeight(t.sky, i, c);
      SegmentHeight(t.sky, i, x);
      HeightBelowTop(t.sky, Rounded(w, t.align), x);
      assert Height(t'.sky, c) == y + h && Height(t.sky, c) <= y;
    } else {
      forall c | 0 <= c < t.width
        ensures Height(t'.sky, c) == if x <= c < x + w then y + h else Height(t.sky, c)
      {
        AfterHeight(t, w, h, x, c);
      }
    }
  }

  lemma HeightBelowTop(s: seq<Seg>, w: int, x: int)
    requires ValidSky(s) && 0 <= x && 0 < w && x + w <= End(s)
    ensures Height(s, x) <= TopAt(s, w, x)
  {
  }

  // ---------------------------------------------------------------- when a rectangle is turned away

  /** A rectangle of the rounded width could be set down at `x`. */
  ghost predicate FitsAt(t: Target, w: int, h: int, x: int)
    requires Good(t) && 0 < w
  {
    0 <= x && x + Rounded(w, t.align) <= t.width && TopAt(t.sky, Rounded(w, t.align), x) + h <= t.height
  }

  /** The place taken is the lowest there is at any column, and with bottom-left the leftmost such. */
  lemma LowestPlace(t: Target, w: int, h: int, t': Target, x: int, y: int, any: int)
    requires Good(t) && 0 < w && 0 < h && PackStep(t, w, h, t', Some((x, y)))
    requires 0 <= any && any + Rounded(w, t.align) <= t.width
    ensures FitsAt(t, w, h, x) && y == TopAt(t.sky, Rounded(w, t.align), x) <= TopAt(t.sky, Rounded(w, t.align), any)
    ensures !t.bestFit && TopAt(t.sky, Rounded(w, t.align), any) == y ==> x <= any
  {
    hide Safe, MaxHeight, Waste;
    BestIsLowest(t.sky, Rounded(w, t.align), h, t.height, t.bestFit, x, any);
  }

  /** With a free node a rectangle is placed if it fits anywhere above the skyline, and only then.
      With align 1 that is its own width. */
  lemma PlacedIff(t: Target, w: int, h: int, t': Target, at: Option<(int, int)>)
    requires Good(t) && 0 < w && 0 < h && PackStep(t, w, h, t', at)
    ensures at.Some? <==> 0 < t.free && exists x :: FitsAt(t, w, h, x)
  {
    hide Safe, TopAt, MaxHeight, Waste, IsBest, Increasing;
    if at.Some? {
      ChosenFits(t, w, h, at.value.0);
    } else {
      forall any | 0 < t.free && FitsAt(t, w, h, any) ensures false {
        var _ := ChoiceExists(t, w, h, any);
      }
    }
  }

  lemma ChosenFits(t: Target, w: int, h: int, x: int)
    requires Good(t) && 0 < w && 0 < h && Chosen(t, w, h, x)
    ensures FitsAt(t, w, h, x)
  {
  }

  lemma ChoiceExists(t: Target, w: int, h: int, any: int) returns (x: int)
    requires Good(t) && 0 < w && 0 < h && 0 < t.free && FitsAt(t, w, h, any)
    ensures Chosen(t, w, h, x)
  {
    hide Safe, MaxHeight, Waste, Increasing, Ranks;
    var s, r := t.sky, Rounded(w, t.align);
    BestExists(s, r, h, t.height, t.bestFit);
    if forall c :: !Admissible(s, r, h, t.height, t.bestFit, c) {
      NoneAdmissible(s, r, h, t.height, t.bestFit, any);
      assert false;
    }
    x :| IsBest(s, r, h, t.height, t.bestFit, x);
    BestIsLowest(s, r, h, t.height, t.bestFit, x, any);
  }

  // ---------------------------------------------------------------- nodes

  /** Node positions are distinct columns, so as many nodes as columns are always enough. */
  lemma EnoughNodes(t: Target)
    requires Good(t) && t.width <= t.numNodes
    ensures 0 < t.free
  {
    NodesAreColumns(t.sky, |t.sky| - 1);
  }

  lemma {:induction false} NodesAreColumns(s: seq<Seg>, i: nat)
    requires ValidSky(s) && i < |s|
    ensures i <= s[i].x
  {
    if i > 0 {
      NodesAreColumns(s, i - 1);
      Before(s, i);
    }
  }

  // ---------------------------------------------------------------- runs

  /** The target as `init_target` leaves it. */
  ghost predicate Fresh(t: Target) {
    && 0 < t.width < SENTINEL && 0 < t.height < SENTINEL && 0 < t.align && 0 < t.numNodes
    && t.sky == [Seg(0, 0), Seg(t.width, SENTINEL)] && t.free == t.numNodes && t.placed == []
  }

  lemma FreshGood(t: Target)
    requires Fresh(t)
    ensures Good(t)
  {
  }

  /** The next target, when the heuristic and the alignment may have been changed in between. */
  ghost predicate Move(t: Target, w: int, h: int, t': Target) {
    0 < w && 0 < h &&
    (Good(t) ==>
       exists align: int, bestFit: bool, at: Option<(int, int)> ::
         0 < align && PackStep(Retuned(t, align, bestFit), w, h, t', at))
  }

  ghost function Retuned(t: Target, align: int, bestFit: bool): (r: Target)
    requires Good(t) && 0 < align
    ensures Good(r)
  {
    t.(align := align, bestFit := bestFit)
  }

  /** The targets met when rectangles of the given sizes are packed one after the other. */
  ghost predicate Run(ts: seq<Target>, sizes: seq<(int, int)>) {
    && |ts| == |sizes| + 1 && Fresh(ts[0])
    && forall i :: 0 <= i < |sizes| ==> Move(ts[i], sizes[i].0, sizes[i].1, ts[i + 1])
  }

  /** Over any run every target is good: rectangles inside and pairwise disjoint, the skyline an
      upper bound, the active list sorted from 0 to the right edge, no node lost. */
  lemma {:induction false} RunGood(ts: seq<Target>, sizes: seq<(int, int)>, i: nat)
    requires Run(ts, sizes) && i < |ts|
    ensures Good(ts[i])
    decreases i
  {
    hide Good, PackStep;
    if i == 0 {
      FreshGood(ts[0]);
    } else {
      RunGood(ts, sizes, i - 1);
      var t, w, h, t' := ts[i - 1], sizes[i - 1].0, sizes[i - 1].1, ts[i];
      assert Move(t, w, h, t');
      var align: int, bestFit: bool, at :| 0 < align && PackStep(Retuned(t, align, bestFit), w, h, t', at);
      StepKeepsGood(Retuned(t, align, bestFit), w, h, t', at);
    }
  }

  /** What is placed stays placed. */
  lemma {:induction false} RunGrows(ts: seq<Target>, sizes: seq<(int, int)>, i: nat, j: nat)
    requires Run(ts, sizes) && i <= j < |ts|
    ensures ts[i].placed <= ts[j].placed
    ensures ts[i].width == ts[j].width && ts[i].height == ts[j].height && ts[i].numNodes == ts[j].numNodes
    decreases j
  {
    hide Good, Chosen;
    if i < j {
      RunGrows(ts, sizes, i, j - 1);
      RunGood(ts, sizes, j - 1);
      assert Move(ts[j - 1], sizes[j - 1].0, sizes[j - 1].1, ts[j]);
    }
  }

  /** `setup_allow_out_of_mem(0)`: the smallest alignment with `numNodes` times it at least the width. */
  function AlignFor(width: int, numNodes: int): (a: int)
    requires 0 < width && 0 < numNodes
    ensures 0 < a && width <= numNodes * a && numNodes * (a - 1) < width
  {
    var up := width + numNodes - 1;
    AlignBounds(width, numNodes);
    up / numNodes
  }

  lemma AlignBounds(width: int, numNodes: int)
    requires 0 < width && 0 < numNodes
    ensures var a := (width + numNodes - 1) / numNodes;
            0 < a && width <= numNodes * a && numNodes * (a - 1) < width
  {
    var up := width + numNodes - 1;
    var a := up / numNodes;
    assert up == a * numNodes + up % numNodes;
    assert numNodes * (a - 1) == a * numNodes - numNodes;
  }
}
