/** Best fit looks at node positions only and still finds the best position of all: the lowest, of those
    the one that loses the least area, and of those the leftmost. */
module BestFit {
  import opened Wrappers
  import opened Skyline
  import opened Packing
  import opened WastedArea
  import opened Targets
  import opened Ground

  /** A position with no node at either end: the skyline goes on level on both sides of both ends. */
  lemma LevelEnds(s: seq<Seg>, w: int, y: int)
    requires ValidSky(s) && 0 < w && 0 <= y && y + w <= End(s) && !Candidate(s, w, true, y)
    ensures 0 < y && y + w < End(s)
    ensures Height(s, y - 1) == Height(s, y) && Height(s, y + w - 1) == Height(s, y + w)
  {
    hide Increasing;
    assert s[0].x == 0 && s[|s| - 1].x == End(s);
    LevelAt(s, y);
    LevelAt(s, y + w);
  }

  lemma LevelAt(s: seq<Seg>, c: int)
    requires ValidSky(s) && 0 < c < End(s) && forall i :: 0 <= i < |s| ==> s[i].x != c
    ensures Height(s, c - 1) == Height(s, c)
  {
    SegmentHeight(s, IndexAt(s, c), c - 1);
  }

  lemma OneColumn(s: seq<Seg>, a: int, top: int)
    requires ValidSky(s) && 0 <= a < End(s)
    ensures Area(s, a, a + 1, top) == top - Height(s, a)
  {
    hide Height;
  }

  /** One column to the left the height is no greater, and the area changes by the difference of the ends. */
  lemma StepLeft(s: seq<Seg>, w: int, y: int, top: int)
    requires ValidSky(s) && 0 < w && 0 <= y && y + w <= End(s) && !Candidate(s, w, true, y)
    ensures 0 < y && y + w < End(s) && TopAt(s, w, y - 1) <= TopAt(s, w, y)
    ensures Height(s, y - 1) == Height(s, y) && Height(s, y - 1 + w) == Height(s, y + w)
    ensures Area(s, y - 1, y - 1 + w, top) == Area(s, y, y + w, top) + Height(s, y + w) - Height(s, y)
  {
    hide Increasing, Height, Area, Candidate;
    LevelEnds(s, w, y);
    AreaSplit(s, y - 1, y, y + w, top);
    AreaSplit(s, y - 1, y + w - 1, y + w, top);
    OneColumn(s, y - 1, top);
    OneColumn(s, y + w - 1, top);
    var c :| y - 1 <= c < y - 1 + w && Height(s, c) == TopAt(s, w, y - 1);
    assert Height(s, if c < y then y else c) <= TopAt(s, w, y);
  }

  lemma StepRight(s: seq<Seg>, w: int, y: int, top: int)
    requires ValidSky(s) && 0 < w && 0 <= y && y + w <= End(s) && !Candidate(s, w, true, y)
    ensures 0 < y && y + w < End(s) && TopAt(s, w, y + 1) <= TopAt(s, w, y)
    ensures Area(s, y + 1, y + 1 + w, top) == Area(s, y, y + w, top) + Height(s, y) - Height(s, y + w)
  {
    hide Increasing, Height, Area, Candidate;
    LevelEnds(s, w, y);
    AreaSplit(s, y, y + 1, y + w + 1, top);
    AreaSplit(s, y, y + w, y + w + 1, top);
    OneColumn(s, y, top);
    OneColumn(s, y + w, top);
    var c :| y + 1 <= c < y + 1 + w && Height(s, c) == TopAt(s, w, y + 1);
    assert Height(s, if c == y + w then y + w - 1 else c) <= TopAt(s, w, y);
  }

  /** Going left while that loses no more, a candidate is met. */
  lemma {:induction false} CandidateLeft(s: seq<Seg>, w: int, y: int, top: int) returns (c: int)
    requires ValidSky(s) && 0 < w && 0 <= y && y + w <= End(s)
    requires Candidate(s, w, true, y) || (y + w < End(s) && Height(s, y + w) <= Height(s, y))
    ensures 0 <= c <= y && Candidate(s, w, true, c) && TopAt(s, w, c) <= TopAt(s, w, y)
    ensures Area(s, c, c + w, top) <= Area(s, y, y + w, top)
    decreases y
  {
    hide Increasing, Height, Area, Candidate, TopAt;
    c := y;
    if Candidate(s, w, true, y) {
      CandidateInside(s, w, y);
    } else {
      StepLeft(s, w, y, top);
      c := CandidateLeft(s, w, y - 1, top);
    }
  }

  /** Going right while that loses less, a candidate is met. */
  lemma {:induction false} CandidateRight(s: seq<Seg>, w: int, y: int, top: int) returns (c: int)
    requires ValidSky(s) && 0 < w && 0 <= y && y + w <= End(s)
    requires Candidate(s, w, true, y) || (y + w < End(s) && Height(s, y) < Height(s, y + w))
    ensures y <= c && c + w <= End(s) && Candidate(s, w, true, c) && TopAt(s, w, c) <= TopAt(s, w, y)
    ensures if c == y then true else Area(s, c, c + w, top) < Area(s, y, y + w, top)
    decreases End(s) - y
  {
    hide Increasing, Height, Area, Candidate, TopAt;
    c := y;
    if Candidate(s, w, true, y) {
      CandidateInside(s, w, y);
    } else {
      StepRight(s, w, y, top);
      if !Candidate(s, w, true, y + 1) {
        LevelEnds(s, w, y + 1);
      }
      c := CandidateRight(s, w, y + 1, top);
    }
  }

  lemma CandidateInside(s: seq<Seg>, w: int, x: int)
    requires |s| >= 2 && Candidate(s, w, true, x)
    ensures 0 <= x && x + w <= End(s)
  {
  }

  lemma BestInside(s: seq<Seg>, w: int, h: int, height: int, x: int)
    requires ValidSky(s) && 0 < w && IsBest(s, w, h, height, true, x)
    ensures 0 <= x && x + w <= End(s)
  {
  }

  lemma LeastOfCandidates(s: seq<Seg>, w: int, h: int, height: int, x: int, c: int)
    requires ValidSky(s) && GroundLast(s) && 0 < w && IsBest(s, w, h, height, true, x)
    requires 0 <= x && x + w <= End(s) && 0 <= c && c + w <= End(s)
    requires Candidate(s, w, true, c) && TopAt(s, w, c) == TopAt(s, w, x)
    ensures var area, area' := Area(s, x, x + w, TopAt(s, w, x)), Area(s, c, c + w, TopAt(s, w, x));
            area < area' || (area == area' && x <= c)
  {
    hide Increasing, Height, Area, TopAt, Waste, GroundLast;
    ExactWaste(s, x, w);
    ExactWaste(s, c, w);
    assert Ranks(s, w, true, x, c);
  }

  /** The lowest, then the least area, then the leftmost, among all positions in the target. */
  lemma BestOfAll(s: seq<Seg>, w: int, h: int, height: int, x: int, any: int)
    requires ValidSky(s) && GroundLast(s) && 0 < w && IsBest(s, w, h, height, true, x)
    requires 0 <= any && any + w <= End(s)
    ensures 0 <= x && x + w <= End(s)
    ensures var top, top' := TopAt(s, w, x), TopAt(s, w, any);
            var area, area' := Area(s, x, x + w, top), Area(s, any, any + w, top);
            top < top' || (top == top' && (area < area' || (area == area' && x <= any)))
  {
    hide Increasing, Height, Area, TopAt, GroundLast, Candidate, IsBest;
    BestInside(s, w, h, height, x);
    BestIsLowest(s, w, h, height, true, x, any);
    var top := TopAt(s, w, x);
    if TopAt(s, w, any) == top {
      var c: int;
      if Candidate(s, w, true, any) {
        c := any;
      } else {
        LevelEnds(s, w, any);
        if Height(s, any + w) <= Height(s, any) {
          c := CandidateLeft(s, w, any, top);
        } else {
          c := CandidateRight(s, w, any, top);
        }
      }
      CandidateInside(s, w, c);
      BestIsLowest(s, w, h, height, true, x, c);
      LeastOfCandidates(s, w, h, height, x, c);
    }
  }

  /** So it is for every rectangle that best fit places in any run. */
  lemma BestFitPlace(ts: seq<Target>, sizes: seq<(int, int)>, i: nat, w: int, h: int, t': Target,
                     x: int, y: int, any: int)
    requires Run(ts, sizes) && i < |ts| && ts[i].bestFit && Good(ts[i])
    requires 0 < w && 0 < h && PackStep(ts[i], w, h, t', Some((x, y)))
    requires 0 <= any && any + Rounded(w, ts[i].align) <= ts[i].width
    ensures var s, r := ts[i].sky, Rounded(w, ts[i].align);
            && 0 <= x && x + r <= End(s)
            && y == MaxHeight(s, x, x + r)
            && var y' := MaxHeight(s, any, any + r);
               var area, area' := Area(s, x, x + r, y), Area(s, any, any + r, y);
               y < y' || (y == y' && (area < area' || (area == area' && x <= any)))
  {
    hide Safe, Low, Area, MaxHeight, Increasing, GroundLast, IsBest, Run;
    RunGroundLast(ts, sizes, i);
    ChosenPlaces(ts[i], w, h, x);
    BestOfAll(ts[i].sky, Rounded(w, ts[i].align), h, ts[i].height, x, any);
  }
}
