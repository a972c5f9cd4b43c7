/** What the packer promises: which position a rectangle gets, what that does to the skyline, and
    what holds after any sequence of rectangles. */
module Packing {
  import opened Bytes
  import opened Skyline

  // ---------------------------------------------------------------- scanning under a rectangle

  /** The variables of the scan in `find_min_y`. */
  datatype Scan = Scan(minY: int, visited: int, waste: int)

  /** One turn of the scan, at a node (x, y) whose successor is at `next`. */
  ghost function ScanNode(x: int, y: int, next: int, x0: int, width: int, a: Scan): Scan {
    if y > a.minY then Scan(y, a.visited + (next - Max(x, x0)), a.waste + a.visited * (y - a.minY))
    else
      var under := Min(next - x, width - a.visited);
      Scan(a.minY, a.visited + under, a.waste + under * (a.minY - y))
  }

  ghost function ScanStep(s: seq<Seg>, k: nat, x0: int, width: int, a: Scan): Scan
    requires k < |s| - 1
  {
    ScanNode(s[k].x, s[k].y, s[k + 1].x, x0, width, a)
  }

  ghost function ScanFrom(s: seq<Seg>, k: nat, x0: int, width: int, a: Scan): Scan
    requires k < |s|
    decreases |s| - k
  {
    if k == |s| - 1 || s[k].x >= x0 + width then a
    else ScanFrom(s, k + 1, x0, width, ScanStep(s, k, x0, width, a))
  }

  lemma ScanFromNext(s: seq<Seg>, k: nat, x0: int, width: int, a: Scan)
    requires k < |s| - 1 && s[k].x < x0 + width
    ensures ScanFrom(s, k, x0, width, a) == ScanFrom(s, k + 1, x0, width, ScanStep(s, k, x0, width, a))
  {
  }

  lemma ScanFromEnd(s: seq<Seg>, k: nat, x0: int, width: int, a: Scan)
    requires k < |s| && (k == |s| - 1 || s[k].x >= x0 + width)
    ensures ScanFrom(s, k, x0, width, a) == a
  {
  }

  /** The waste `find_min_y` reports for a rectangle at `x`. */
  ghost function Waste(s: seq<Seg>, x: int, w: int): int
    requires ValidSky(s) && 0 <= x < End(s)
  {
    ScanFrom(s, IndexAt(s, x), x, w, Scan(0, 0, 0)).waste
  }

  /** How far the scan has come when it stands before node `k`. */
  ghost function Reached(s: seq<Seg>, k: nat, x0: int, width: int): int
    requires k < |s|
  {
    Max(x0, Min(x0 + width, s[k].x))
  }

  ghost predicate ScanHeight(s: seq<Seg>, k: nat, x0: int, width: int, a: Scan)
    requires ValidSky(s) && k < |s| && 0 <= x0 && 0 < width && x0 + width <= End(s)
  {
    a.minY == MaxHeight(s, x0, Reached(s, k, x0, width))
  }

  /** One turn of the scan takes in the columns of one node. */
  lemma ScanStepHeight(s: seq<Seg>, k: nat, x0: int, width: int, a: Scan)
    requires ValidSky(s) && k < |s| - 1 && 0 <= x0 && 0 < width && x0 + width <= End(s)
    requires s[k].x < x0 + width && x0 < s[k + 1].x && ScanHeight(s, k, x0, width, a)
    ensures ScanHeight(s, k + 1, x0, width, ScanStep(s, k, x0, width, a))
  {
    hide MaxHeight, Height;
    var b, b' := Reached(s, k, x0, width), Reached(s, k + 1, x0, width);
    Before(s, k);
    forall c | b <= c < b' ensures Height(s, c) == s[k].y {
      SegmentHeight(s, k, c);
    }
    MaxHeightExtend(s, x0, b, b', s[k].y);
  }

  lemma {:induction false} ScanFromHeight(s: seq<Seg>, k: nat, x0: int, width: int, a: Scan)
    requires ValidSky(s) && k < |s| && 0 <= x0 && 0 < width && x0 + width <= End(s)
    requires k + 1 < |s| ==> x0 < s[k + 1].x
    requires ScanHeight(s, k, x0, width, a)
    ensures ScanFrom(s, k, x0, width, a).minY == MaxHeight(s, x0, x0 + width)
    decreases |s| - k
  {
    hide MaxHeight;
    if k < |s| - 1 && s[k].x < x0 + width {
      ScanStepHeight(s, k, x0, width, a);
      if k + 2 < |s| { Before(s, k + 1); }
      ScanFromHeight(s, k + 1, x0, width, ScanStep(s, k, x0, width, a));
    }
  }

  // ---------------------------------------------------------------- the choice of a position

  /** `w` rounded up to a multiple of `align`. */
  function Rounded(w: int, align: int): (r: int)
    requires align > 0
    ensures w <= r < w + align && r % align == 0
  {
    var up := w + align - 1;
    RoundingDown(up, align);
    up - up % align
  }

  lemma RoundingDown(up: int, align: int)
    requires align > 0
    ensures (up - up % align) % align == 0
  {
    assert up - up % align == up / align * align + 0;
    DivModUnique(up - up % align, align, up / align, 0);
  }

  /** The left ends that are tried: at a node, and for best fit also such that the right end is at one. */
  ghost predicate Candidate(s: seq<Seg>, w: int, bestFit: bool, x: int)
    requires |s| >= 2
  {
    && 0 <= x && x + w <= End(s)
    && ((exists i :: 0 <= i < |s| && s[i].x == x) ||
        (bestFit && exists t :: 0 <= t < |s| && s[t].x == x + w))
  }

  /** The top of the skyline under a rectangle at `x`. */
  ghost function TopAt(s: seq<Seg>, w: int, x: int): (y: int)
    requires ValidSky(s) && 0 <= x && 0 < w && x + w <= End(s)
    ensures 0 <= y
  {
    MaxHeight(s, x, x + w)
  }

  /** `x` ranks before or with `x'`: lower, then (for best fit) less waste, then further left. */
  ghost predicate Ranks(s: seq<Seg>, w: int, bestFit: bool, x: int, x': int)
    requires ValidSky(s) && 0 < w && 0 <= x && x + w <= End(s) && 0 <= x' && x' + w <= End(s)
  {
    var y, y' := TopAt(s, w, x), TopAt(s, w, x');
    y < y' || (y == y' &&
      if bestFit then Waste(s, x, w) < Waste(s, x', w) || (Waste(s, x, w) == Waste(s, x', w) && x <= x')
      else x <= x')
  }

  /** A candidate the heuristic considers at all: best fit passes over those that are too high. */
  ghost predicate Admissible(s: seq<Seg>, w: int, h: int, height: int, bestFit: bool, x: int)
    requires ValidSky(s) && 0 < w
  {
    Candidate(s, w, bestFit, x) && (bestFit ==> TopAt(s, w, x) + h <= height)
  }

  /** The candidate of the first rank. */
  ghost predicate IsBest(s: seq<Seg>, w: int, h: int, height: int, bestFit: bool, x: int)
    requires ValidSky(s) && 0 < w
  {
    && Admissible(s, w, h, height, bestFit, x)
    && forall x' :: Admissible(s, w, h, height, bestFit, x') ==> Ranks(s, w, bestFit, x, x')
  }

  lemma BestUnique(s: seq<Seg>, w: int, h: int, height: int, bestFit: bool, x: int, x': int)
    requires ValidSky(s) && 0 < w
    requires IsBest(s, w, h, height, bestFit, x) && IsBest(s, w, h, height, bestFit, x')
    ensures x == x'
  {
  }

  /** Trying nodes only is enough: the best candidate is as low as any position in the target, and
      for the bottom-left heuristic no position as low lies further left. */
  lemma BestIsLowest(s: seq<Seg>, w: int, h: int, height: int, bestFit: bool, x: int, any: int)
    requires ValidSky(s) && 0 < w && IsBest(s, w, h, height, bestFit, x)
    requires 0 <= any && any + w <= End(s)
    ensures TopAt(s, w, x) <= TopAt(s, w, any)
    ensures !bestFit && TopAt(s, w, any) == TopAt(s, w, x) ==> x <= any
  {
    hide MaxHeight, Waste;
    NodesSuffice(s, any, w);
    var n := s[IndexAt(s, any)].x;
    assert Candidate(s, w, bestFit, n);
    if bestFit && TopAt(s, w, n) + h > height {
    } else {
      assert Admissible(s, w, h, height, bestFit, n);
    }
  }

  /** When nothing is admissible, nothing fits anywhere. */
  lemma NoneAdmissible(s: seq<Seg>, w: int, h: int, height: int, bestFit: bool, any: int)
    requires ValidSky(s) && 0 < w && forall x :: !Admissible(s, w, h, height, bestFit, x)
    requires 0 <= any && any + w <= End(s)
    ensures TopAt(s, w, any) + h > height
  {
    hide MaxHeight, Waste;
    NodesSuffice(s, any, w);
    var n := s[IndexAt(s, any)].x;
    assert Candidate(s, w, bestFit, n);
    assert !Admissible(s, w, h, height, bestFit, n);
  }

  lemma RanksTransitive(s: seq<Seg>, w: int, bestFit: bool, x: int, y: int, z: int)
    requires ValidSky(s) && 0 < w && 0 <= x && x + w <= End(s) && 0 <= y && y + w <= End(s)
    requires 0 <= z && z + w <= End(s)
    requires Ranks(s, w, bestFit, x, y) && Ranks(s, w, bestFit, y, z)
    ensures Ranks(s, w, bestFit, x, z)
  {
    hide TopAt, Waste;
  }

  /** The best of the admissible candidates below `bound`, when there is one. */
  lemma {:induction false} BestBelow(s: seq<Seg>, w: int, h: int, height: int, bestFit: bool, bound: nat)
    returns (x: int)
    requires ValidSky(s) && 0 < w
    ensures x == -1 ==> forall c :: 0 <= c < bound ==> !Admissible(s, w, h, height, bestFit, c)
    ensures x != -1 ==> x < bound && Admissible(s, w, h, height, bestFit, x)
    ensures x != -1 ==> forall c :: c < bound && Admissible(s, w, h, height, bestFit, c) ==>
                                    Ranks(s, w, bestFit, x, c)
    decreases bound
  {
    hide TopAt, Waste, Increasing;
    if bound == 0 {
      x := -1;
    } else {
      x := BestBelow(s, w, h, height, bestFit, bound - 1);
      var c := bound - 1;
      if Admissible(s, w, h, height, bestFit, c) {
        if x == -1 {
          x := c;
        } else if !Ranks(s, w, bestFit, x, c) {
          forall d | d < bound && Admissible(s, w, h, height, bestFit, d) ensures Ranks(s, w, bestFit, c, d) {
            if d < c { RanksTransitive(s, w, bestFit, c, x, d); }
          }
          x := c;
        }
      }
    }
  }

  /** The choice can always be made: there is a best candidate as soon as one is admissible. */
  lemma BestExists(s: seq<Seg>, w: int, h: int, height: int, bestFit: bool)
    requires ValidSky(s) && 0 < w
    ensures (exists x :: IsBest(s, w, h, height, bestFit, x)) <==>
            (exists x :: Admissible(s, w, h, height, bestFit, x))
  {
    hide TopAt, Waste, Increasing, Ranks;
    Before(s, |s| - 1);
    var x := BestBelow(s, w, h, height, bestFit, s[|s| - 1].x + 1);
    if x != -1 {
      assert IsBest(s, w, h, height, bestFit, x);
    }
  }

  // ---------------------------------------------------------------- searching candidate by candidate

  /** The candidates looked at so far: left ends at the first `k` nodes, and for best fit right ends at
      the first `m`. */
  ghost predicate Tried(s: seq<Seg>, w: int, bestFit: bool, k: nat, m: nat, c: int)
    requires k <= |s| && m <= |s|
  {
    (exists i :: 0 <= i < k && s[i].x == c) || (bestFit && exists t :: 0 <= t < m && s[t].x == c + w)
  }

  /** `x` is the best admissible one among them; -1 when there is none. */
  ghost predicate BestOf(s: seq<Seg>, w: int, h: int, height: int, bestFit: bool, k: nat, m: nat, x: int)
    requires ValidSky(s) && 0 < w && k <= |s| && m <= |s|
  {
    if x == -1 then
      forall c :: Tried(s, w, bestFit, k, m, c) ==> !Admissible(s, w, h, height, bestFit, c)
    else
      && Admissible(s, w, h, height, bestFit, x)
      && forall c :: Tried(s, w, bestFit, k, m, c) && Admissible(s, w, h, height, bestFit, c) ==>
                     Ranks(s, w, bestFit, x, c)
  }

  /** The better of the best so far and the next candidate. */
  ghost function Better(s: seq<Seg>, w: int, h: int, height: int, bestFit: bool, x: int, c: int): int
    requires ValidSky(s) && 0 < w && (x == -1 || Admissible(s, w, h, height, bestFit, x))
  {
    if Admissible(s, w, h, height, bestFit, c) && (x == -1 || !Ranks(s, w, bestFit, x, c)) then c else x
  }

  lemma BestWithOneMore(s: seq<Seg>, w: int, h: int, height: int, bestFit: bool,
                        k: nat, m: nat, k': nat, m': nat, x: int, c: int)
    requires ValidSky(s) && 0 < w && k <= |s| && m <= |s| && k' <= |s| && m' <= |s|
    requires BestOf(s, w, h, height, bestFit, k, m, x)
    requires forall d :: Tried(s, w, bestFit, k', m', d) ==> d == c || Tried(s, w, bestFit, k, m, d)
    ensures BestOf(s, w, h, height, bestFit, k', m', Better(s, w, h, height, bestFit, x, c))
  {
    hide TopAt, Waste, Increasing;
    var best := Better(s, w, h, height, bestFit, x, c);
    if best != -1 {
      forall d | Tried(s, w, bestFit, k', m', d) && Admissible(s, w, h, height, bestFit, d)
        ensures Ranks(s, w, bestFit, best, d)
      {
        if best == c && d != c && x != -1 {
          RanksTransitive(s, w, bestFit, c, x, d);
        }
      }
    }
  }

  lemma LeftTried(s: seq<Seg>, w: int, bestFit: bool, k: nat, m: nat)
    requires k < |s| && m <= |s|
    ensures forall d :: Tried(s, w, bestFit, k + 1, m, d) ==> d == s[k].x || Tried(s, w, bestFit, k, m, d)
  {
  }

  lemma RightTried(s: seq<Seg>, w: int, k: nat, m: nat)
    requires k <= |s| && m < |s|
    ensures forall d :: Tried(s, w, true, k, m + 1, d) ==> d == s[m].x - w || Tried(s, w, true, k, m, d)
  {
  }

  /** Once the nodes that leave room on the right, and for best fit all right ends, have been looked
      at, the best so far is the best. */
  lemma SearchComplete(s: seq<Seg>, w: int, h: int, height: int, bestFit: bool, k: nat, m: nat, x: int)
    requires ValidSky(s) && 0 < w && k < |s| && m <= |s| && BestOf(s, w, h, height, bestFit, k, m, x)
    requires s[k].x + w > End(s) && (bestFit ==> m == |s|)
    ensures x == -1 ==> forall c :: !Admissible(s, w, h, height, bestFit, c)
    ensures x != -1 ==> IsBest(s, w, h, height, bestFit, x)
  {
    hide TopAt, Waste, Ranks;
    Ordered(s);
    forall c | Admissible(s, w, h, height, bestFit, c) ensures Tried(s, w, bestFit, k, m, c) {
    }
  }

  /** Nothing under a low skyline is higher than the target. */
  lemma LowTop(s: seq<Seg>, w: int, x: int, height: int)
    requires ValidSky(s) && 0 <= x && 0 < w && x + w <= End(s)
    requires forall i :: 0 <= i < |s| - 1 ==> s[i].y <= height
    ensures TopAt(s, w, x) <= height
  {
    hide Increasing;
    var c :| x <= c < x + w && Height(s, c) == MaxHeight(s, x, x + w);
  }
}
