/** The ground: in every target that packing can produce, the columns still at height 0 are the last
    ones. The waste that ranks the candidates of best fit is then exact. */
module Ground {
  import opened Wrappers
  import opened Skyline
  import opened Packing
  import opened WastedArea
  import opened Targets

  /** Only the last node before the sentinel may be at height 0. */
  ghost predicate GroundLast(s: seq<Seg>) {
    forall i :: 0 <= i < |s| - 2 ==> s[i].y > 0
  }

  lemma GroundIndex(s: seq<Seg>, x: int)
    requires ValidSky(s) && GroundLast(s) && 0 <= x < End(s) && Height(s, x) == 0
    ensures IndexAt(s, x) == |s| - 2
  {
  }

  /** The reported waste is the area lost under the rectangle. */
  lemma ExactWaste(s: seq<Seg>, x: int, w: int)
    requires ValidSky(s) && GroundLast(s) && 0 <= x && 0 < w && x + w <= End(s)
    ensures Waste(s, x, w) == Area(s, x, x + w, TopAt(s, w, x))
  {
    hide Waste, Area, MaxHeight, Increasing;
    WasteIsAreaIff(s, x, w);
    if Height(s, x) == 0 {
      GroundIndex(s, x);
    }
  }

  /** A rectangle on the ground loses nothing, and nothing lies to the left of the ground. */
  lemma OnGround(s: seq<Seg>, x: int, w: int)
    requires ValidSky(s) && GroundLast(s) && 0 <= x && 0 < w && x + w <= End(s) && TopAt(s, w, x) == 0
    ensures Waste(s, x, w) == 0 && s[|s| - 2].x <= x && s[|s| - 2].y == 0 && IndexAt(s, x) == |s| - 2
  {
    hide Waste, Increasing, Height;
    ExactWaste(s, x, w);
    assert forall c :: x <= c < x + w ==> Height(s, c) <= TopAt(s, w, x);
    AreaExtend(s, x, x, x + w, 0, 0);
    GroundIndex(s, x);
    SegmentHeight(s, IndexAt(s, x), x);
  }

  lemma GroundTop(s: seq<Seg>, x: int, w: int)
    requires ValidSky(s) && s[|s| - 2].y == 0 && s[|s| - 2].x <= x && 0 < w && x + w <= End(s)
    ensures 0 <= x && TopAt(s, w, x) == 0
  {
    hide Increasing, Height;
    Before(s, |s| - 2);
    forall c | x <= c < x + w ensures Height(s, c) == 0 {
      SegmentHeight(s, |s| - 2, c);
    }
  }

  /** When the width fits on the ground, the first column of the ground is the best position for either
      heuristic. */
  lemma GroundIsBest(s: seq<Seg>, w: int, h: int, height: int, bestFit: bool)
    requires ValidSky(s) && GroundLast(s) && s[|s| - 2].y == 0 && 0 < w && s[|s| - 2].x + w <= End(s) && h <= height
    ensures 0 <= s[|s| - 2].x && TopAt(s, w, s[|s| - 2].x) == 0
    ensures IsBest(s, w, h, height, bestFit, s[|s| - 2].x)
  {
    hide Increasing, TopAt, Waste, GroundLast;
    var g := s[|s| - 2].x;
    GroundTop(s, g, w);
    OnGround(s, g, w);
    forall x | Admissible(s, w, h, height, bestFit, x) ensures Ranks(s, w, bestFit, g, x) {
      if TopAt(s, w, x) == 0 {
        OnGround(s, x, w);
      }
    }
  }

  /** A best position on the ground is the first column of the ground. */
  lemma BestOnGround(s: seq<Seg>, w: int, h: int, height: int, bestFit: bool, x: int)
    requires ValidSky(s) && GroundLast(s) && 0 < w && IsBest(s, w, h, height, bestFit, x) && TopAt(s, w, x) == 0
    requires h <= height
    ensures x == s[|s| - 2].x && s[|s| - 2].y == 0
  {
    hide Increasing, TopAt, Waste, Ranks, GroundLast;
    OnGround(s, x, w);
    GroundIsBest(s, w, h, height, bestFit);
    BestUnique(s, w, h, height, bestFit, x, s[|s| - 2].x);
  }

  // ---------------------------------------------------------------- over any run

  /** A best position whose left end splits a segment is not on the ground. */
  lemma SplitRaised(s: seq<Seg>, w: int, h: int, height: int, bestFit: bool, x: int)
    requires ValidSky(s) && GroundLast(s) && 0 < w && 0 <= x && x + w <= End(s) && h <= height
    requires IsBest(s, w, h, height, bestFit, x)
    ensures s[IndexAt(s, x)].x < x ==> s[IndexAt(s, x)].y > 0
  {
    hide IsBest, Increasing, GroundLast, TopAt;
    var i := IndexAt(s, x);
    if s[i].y == 0 && s[i].x < x {
      SegmentHeight(s, i, x);
      GroundIndex(s, x);
      GroundTop(s, x, w);
      BestOnGround(s, w, h, height, bestFit, x);
    }
  }

  lemma InsertGroundLast(s: seq<Seg>, i: nat, x: int, w: int, top: int)
    requires i < |s| - 1 && GroundLast(s) && 0 < top && (s[i].x < x ==> s[i].y > 0)
    ensures GroundLast(Insert(s, i, x, w, top))
  {
    var k := Kept(s, i, x);
    var j := SkipTo(s, k, x + w);
    var r := Insert(s, i, x, w, top);
    forall n | 0 <= n < |r| - 2 ensures r[n].y > 0 {
      assert r[n].y == if n < k then s[n].y else if n == k then top else s[n - k - 1 + j].y;
    }
  }

  /** Every step keeps the ground in one piece at the end. */
  lemma StepGroundLast(t: Target, w: int, h: int, t': Target, at: Option<(int, int)>)
    requires Good(t) && 0 < w && 0 < h && PackStep(t, w, h, t', at) && GroundLast(t.sky)
    ensures GroundLast(t'.sky)
  {
    hide Safe, IsBest, Insert, TopAt, Increasing, GroundLast;
    if at.Some? {
      var x := at.value.0;
      ChosenPlaces(t, w, h, x);
      SplitRaised(t.sky, Rounded(w, t.align), h, t.height, t.bestFit, x);
      InsertGroundLast(t.sky, IndexAt(t.sky, x), x, w, TopAt(t.sky, Rounded(w, t.align), x) + h);
    }
  }

  lemma {:induction false} RunGroundLast(ts: seq<Target>, sizes: seq<(int, int)>, i: nat)
    requires Run(ts, sizes) && i < |ts|
    ensures GroundLast(ts[i].sky)
    decreases i
  {
    hide Good, GroundLast, PackStep;
    if i == 0 {
      FreshGroundLast(ts[0]);
    } else {
      RunGroundLast(ts, sizes, i - 1);
      RunGood(ts, sizes, i - 1);
      var t, w, h, t' := ts[i - 1], sizes[i - 1].0, sizes[i - 1].1, ts[i];
      assert Move(t, w, h, t');
      var align: int, bestFit: bool, at :| 0 < align && PackStep(Retuned(t, align, bestFit), w, h, t', at);
      StepGroundLast(Retuned(t, align, bestFit), w, h, t', at);
    }
  }

  lemma FreshGroundLast(t: Target)
    requires Fresh(t)
    ensures GroundLast(t.sky)
  {
  }

  /** Over any run, for any position and width: the waste the scan reports is the area lost. */
  lemma RunWaste(ts: seq<Target>, sizes: seq<(int, int)>, i: nat, x: int, w: int)
    requires Run(ts, sizes) && i < |ts| && 0 <= x && 0 < w && x + w <= ts[i].width
    ensures ValidSky(ts[i].sky) && End(ts[i].sky) == ts[i].width
    ensures Waste(ts[i].sky, x, w) == Area(ts[i].sky, x, x + w, TopAt(ts[i].sky, w, x))
  {
    hide Safe, Waste, Area, TopAt, Increasing, GroundLast, Run;
    RunGood(ts, sizes, i);
    RunGroundLast(ts, sizes, i);
    ExactWaste(ts[i].sky, x, w);
  }
}
