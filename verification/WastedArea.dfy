/** How far the waste that ranks the candidates of best fit is from the area it stands for. */
module WastedArea {
  import opened Bytes
  import opened Skyline
  import opened Packing

  /** The area between height `y` and the skyline over the columns [a, b). */
  ghost function Area(s: seq<Seg>, a: int, b: int, y: int): int
    requires ValidSky(s) && 0 <= a && b <= End(s)
    decreases b - a
  {
    if a >= b then 0 else Area(s, a, b - 1, y) + (y - Height(s, b - 1))
  }

  lemma {:induction false} AreaRaised(s: seq<Seg>, a: int, b: int, y: int, y': int)
    requires ValidSky(s) && 0 <= a <= b <= End(s)
    ensures Area(s, a, b, y') == Area(s, a, b, y) + (b - a) * (y' - y)
    decreases b - a
  {
    hide Height, ValidSky;
    if a < b {
      AreaRaised(s, a, b - 1, y, y');
      OneMore(b - 1 - a, y' - y);
    }
  }

  lemma {:induction false} AreaExtend(s: seq<Seg>, a: int, b: int, b': int, y: int, h: int)
    requires ValidSky(s) && 0 <= a <= b <= b' <= End(s)
    requires forall c :: b <= c < b' ==> Height(s, c) == h
    ensures Area(s, a, b', y) == Area(s, a, b, y) + (b' - b) * (y - h)
    decreases b' - b
  {
    hide Height, ValidSky;
    if b < b' {
      AreaExtend(s, a, b, b' - 1, y, h);
      OneMore(b' - 1 - b, y - h);
    }
  }

  lemma OneMore(n: int, d: int)
    ensures n * d + d == (n + 1) * d
  {
  }

  /** Two adjacent stretches. */
  lemma {:induction false} AreaSplit(s: seq<Seg>, a: int, b: int, c: int, y: int)
    requires ValidSky(s) && 0 <= a <= b <= c <= End(s)
    ensures Area(s, a, c, y) == Area(s, a, b, y) + Area(s, b, c, y)
    decreases c - b
  {
    hide Height, ValidSky;
    if b < c {
      AreaSplit(s, a, b, c - 1, y);
    }
  }

  /** No area under a height that the skyline does not exceed is negative. */
  lemma {:induction false} AreaNotNegative(s: seq<Seg>, a: int, b: int, y: int)
    requires ValidSky(s) && 0 <= a <= b <= End(s) && forall c :: a <= c < b ==> Height(s, c) <= y
    ensures 0 <= Area(s, a, b, y)
    decreases b - a
  {
    hide Height, ValidSky;
    if a < b {
      AreaNotNegative(s, a, b - 1, y);
    }
  }

  /** What the scan counts too much from node `k` on: it has counted `extra` columns it should not
      have, and the highest column so far has height `m`. A column counted too much is charged with the
      whole height of the skyline, unless it crowds out a column at the right end. */
  ghost function Excess(s: seq<Seg>, k: nat, end: int, extra: nat, m: nat): (e: nat)
    requires ValidSky(s) && k < |s|
    decreases |s| - k
  {
    if k == |s| - 1 || s[k].x >= end then Charge(extra, m)
    else if s[k].y > m then Excess(s, k + 1, end, extra, s[k].y)
    else
      var left := Left(s, k, end, extra);
      Charge(extra - left, s[k].y) + Excess(s, k + 1, end, left, m)
  }

  ghost function Charge(columns: nat, height: nat): (c: nat)
    ensures c == 0 <==> columns == 0 || height == 0
  {
    ChargeZero(columns, height);
    columns * height
  }

  lemma ChargeZero(columns: nat, height: nat)
    ensures 0 <= columns * height
    ensures columns * height == 0 <==> columns == 0 || height == 0
  {
  }

  /** How many of them are still there behind node `k`. */
  ghost function Left(s: seq<Seg>, k: nat, end: int, extra: nat): (left: nat)
    requires k < |s| - 1
    ensures left <= extra
  {
    Min(extra, Max(0, end - s[k + 1].x))
  }

  /** The scan stands before node `k`: besides the columns it has passed it has counted `extra` others,
      and besides the area lost under the height so far and these columns, `paid`. */
  ghost predicate ScanOff(s: seq<Seg>, k: nat, x0: int, width: int, a: Scan, extra: nat, paid: int)
    requires ValidSky(s) && k < |s| && 0 <= x0 && 0 < width && x0 + width <= End(s)
  {
    && (s[k].x < x0 + width ==> a.visited == Reached(s, k, x0, width) - x0 + extra)
    && 0 <= a.minY && a.waste == Area(s, x0, Reached(s, k, x0, width), a.minY) + Charge(extra, a.minY) + paid
  }

  lemma OffRaised(s: seq<Seg>, k: nat, x0: int, width: int, a: Scan, extra: nat, paid: int)
    requires ValidSky(s) && k < |s| - 1 && 0 <= x0 && 0 < width && x0 + width <= End(s)
    requires s[k].x < x0 + width && x0 < s[k + 1].x && ScanOff(s, k, x0, width, a, extra, paid)
    requires s[k].y > a.minY
    ensures ScanOff(s, k + 1, x0, width, ScanStep(s, k, x0, width, a), extra, paid)
  {
    hide Area, Height, Increasing;
    var b, b' := Reached(s, k, x0, width), Reached(s, k + 1, x0, width);
    Before(s, k);
    Before(s, k + 1);
    forall c | b <= c < b' ensures Height(s, c) == s[k].y {
      SegmentHeight(s, k, c);
    }
    AreaRaised(s, x0, b, a.minY, s[k].y);
    AreaExtend(s, x0, b, b', s[k].y, s[k].y);
    Distribute(b - x0, extra, a.minY, s[k].y);
  }

  lemma Distribute(n: int, extra: int, y: int, y': int)
    ensures (n + extra) * (y' - y) == n * (y' - y) + extra * y' - extra * y
  {
  }

  lemma OffUnder(s: seq<Seg>, k: nat, x0: int, width: int, a: Scan, extra: nat, paid: int)
    requires ValidSky(s) && k < |s| - 1 && 0 <= x0 && 0 < width && x0 + width <= End(s)
    requires s[k].x < x0 + width && x0 <= s[k].x && ScanOff(s, k, x0, width, a, extra, paid)
    requires s[k].y <= a.minY
    ensures var left := Left(s, k, x0 + width, extra);
            ScanOff(s, k + 1, x0, width, ScanStep(s, k, x0, width, a), left, paid + Charge(extra - left, s[k].y))
  {
    hide Area, Height, Increasing;
    var b, b', left := Reached(s, k, x0, width), Reached(s, k + 1, x0, width), Left(s, k, x0 + width, extra);
    Before(s, k);
    Before(s, k + 1);
    forall c | b <= c < b' ensures Height(s, c) == s[k].y {
      SegmentHeight(s, k, c);
    }
    AreaExtend(s, x0, b, b', a.minY, s[k].y);
    assert Min(s[k + 1].x - s[k].x, width - a.visited) == b' - b - (extra - left);
    Crowd(b' - b, extra - left, left, a.minY, s[k].y);
  }

  lemma Crowd(n: int, out: int, left: int, m: int, y: int)
    ensures (n - out) * (m - y) == n * (m - y) - (left + out) * m + left * m + out * y
  {
  }

  lemma {:induction false} OffFrom(s: seq<Seg>, k: nat, x0: int, width: int, a: Scan, extra: nat, paid: int)
    requires ValidSky(s) && k < |s| && 0 <= x0 && 0 < width && x0 + width <= End(s)
    requires k + 1 < |s| ==> x0 < s[k + 1].x
    requires ScanHeight(s, k, x0, width, a) && ScanOff(s, k, x0, width, a, extra, paid)
    requires s[k].x >= x0 || s[k].y > a.minY
    ensures ScanFrom(s, k, x0, width, a).waste ==
            Area(s, x0, x0 + width, MaxHeight(s, x0, x0 + width)) + Excess(s, k, x0 + width, extra, a.minY) + paid
    decreases |s| - k
  {
    hide MaxHeight, Area, Charge, Left, ScanStep, Increasing;
    if k < |s| - 1 && s[k].x < x0 + width {
      ScanStepHeight(s, k, x0, width, a);
      Before(s, k + 1);
      if s[k].y > a.minY {
        OffRaised(s, k, x0, width, a, extra, paid);
        StepMin(s, k, x0, width, a);
        OffFrom(s, k + 1, x0, width, ScanStep(s, k, x0, width, a), extra, paid);
      } else {
        var left := Left(s, k, x0 + width, extra);
        OffUnder(s, k, x0, width, a, extra, paid);
        StepMin(s, k, x0, width, a);
        OffFrom(s, k + 1, x0, width, ScanStep(s, k, x0, width, a), left, paid + Charge(extra - left, s[k].y));
      }
    }
  }

  lemma StepMin(s: seq<Seg>, k: nat, x0: int, width: int, a: Scan)
    requires k < |s| - 1
    ensures ScanStep(s, k, x0, width, a).minY == Max(a.minY, s[k].y)
  {
  }

  /** The columns the scan counts too much at its start: those of the first node left of the rectangle,
      unless that node raises the height. */
  ghost function Overhang(s: seq<Seg>, x: int): (n: nat)
    requires ValidSky(s) && 0 <= x < End(s)
  {
    if Height(s, x) > 0 then 0 else x - s[IndexAt(s, x)].x
  }

  /** The reported waste is the area lost under the rectangle and this excess: it is never too small. */
  lemma WasteOverCounts(s: seq<Seg>, x: int, w: int)
    requires ValidSky(s) && 0 <= x && 0 < w && x + w <= End(s)
    ensures Waste(s, x, w) ==
            Area(s, x, x + w, MaxHeight(s, x, x + w)) + Excess(s, IndexAt(s, x), x + w, Overhang(s, x), 0)
  {
    hide Area, Charge, Left, Increasing, ScanStep;
    var k, a := IndexAt(s, x), Scan(0, 0, 0);
    NothingYet(s, k, x, w);
    if s[k].y > 0 || s[k].x == x {
      OffFrom(s, k, x, w, a, 0, 0);
    } else {
      var left := Left(s, k, x + w, Overhang(s, x));
      FirstUnder(s, k, x, w);
      ScanStepHeight(s, k, x, w, a);
      Before(s, k + 1);
      OffFrom(s, k + 1, x, w, ScanStep(s, k, x, w, a), left, 0);
    }
  }

  lemma NothingYet(s: seq<Seg>, k: nat, x: int, w: int)
    requires ValidSky(s) && 0 <= x && 0 < w && x + w <= End(s) && k == IndexAt(s, x)
    ensures ScanHeight(s, k, x, w, Scan(0, 0, 0)) && ScanOff(s, k, x, w, Scan(0, 0, 0), 0, 0)
  {
    assert Reached(s, k, x, w) == x;
  }

  lemma FirstUnder(s: seq<Seg>, k: nat, x: int, w: int)
    requires ValidSky(s) && 0 <= x && 0 < w && x + w <= End(s) && k == IndexAt(s, x) && s[k].y == 0
    ensures ScanOff(s, k + 1, x, w, ScanStep(s, k, x, w, Scan(0, 0, 0)), Left(s, k, x + w, x - s[k].x), 0)
    ensures ScanStep(s, k, x, w, Scan(0, 0, 0)).minY == 0
  {
    hide Area, Height, Increasing;
    var b' := Reached(s, k + 1, x, w);
    Before(s, k + 1);
    forall c | x <= c < b' ensures Height(s, c) == 0 {
      SegmentHeight(s, k, c);
    }
    AreaExtend(s, x, x, b', 0, 0);
    NoArea(s, x);
  }

  lemma NoArea(s: seq<Seg>, x: int)
    requires ValidSky(s) && 0 <= x <= End(s)
    ensures Area(s, x, x, 0) == 0
  {
  }

  // ---------------------------------------------------------------- when the count is exact

  /** Node `n` does not let a wrong column count: it is on the ground, or it raises the skyline once
      more before the right end. */
  ghost predicate Harmless(s: seq<Seg>, k: nat, end: int, m: nat, n: nat)
    requires ValidSky(s) && k <= n < |s| - 1
  {
    s[n].y == 0 || (s[n].y > m && (forall j :: k <= j < n ==> s[j].y < s[n].y) && s[n + 1].x < end)
  }

  ghost predicate AllHarmless(s: seq<Seg>, k: nat, end: int, extra: nat, m: nat)
    requires ValidSky(s)
  {
    forall n :: k <= n < |s| - 1 && s[n].x < end && end - extra < s[n + 1].x ==> Harmless(s, k, end, m, n)
  }

  lemma {:induction false} NoExcess(s: seq<Seg>, k: nat, end: int, extra: nat, m: nat)
    requires ValidSky(s) && k < |s| - 1 && s[k].x < end <= End(s)
    ensures Excess(s, k, end, extra, m) == 0 <==> extra == 0 || AllHarmless(s, k, end, extra, m)
    decreases |s| - k
  {
    hide Increasing, Charge;
    Before(s, k + 1);
    var left := if s[k].y > m then extra else Left(s, k, end, extra);
    var m' := if s[k].y > m then s[k].y else m;
    if k + 1 < |s| - 1 && s[k + 1].x < end {
      NoExcess(s, k + 1, end, left, m');
      if extra > 0 { HarmlessStep(s, k, end, extra, left, m, m'); }
    } else {
      LastNode(s, k, end, extra, m);
    }
  }

  lemma LastNode(s: seq<Seg>, k: nat, end: int, extra: nat, m: nat)
    requires ValidSky(s) && k < |s| - 1 && s[k].x < end <= s[k + 1].x
    ensures extra > 0 ==> (AllHarmless(s, k, end, extra, m) <==> s[k].y == 0)
  {
    Ordered(s);
  }

  /** The state of the count behind node `k`. */
  ghost predicate CountedOn(s: seq<Seg>, k: nat, end: int, extra: nat, left: nat, m: nat, m': nat)
    requires ValidSky(s) && k < |s| - 1
  {
    if s[k].y > m then left == extra && m' == s[k].y else left == Left(s, k, end, extra) && m' == m
  }

  lemma HarmlessStep(s: seq<Seg>, k: nat, end: int, extra: nat, left: nat, m: nat, m': nat)
    requires ValidSky(s) && k < |s| - 2 && s[k + 1].x < end <= End(s) && 0 < extra
    requires CountedOn(s, k, end, extra, left, m, m')
    ensures AllHarmless(s, k, end, extra, m) <==>
            (left == extra || s[k].y == 0) && AllHarmless(s, k + 1, end, left, m')
  {
    hide AllHarmless, Harmless;
    if AllHarmless(s, k, end, extra, m) {
      HarmlessOn(s, k, end, extra, left, m, m');
    }
    if (left == extra || s[k].y == 0) && AllHarmless(s, k + 1, end, left, m') {
      HarmlessBack(s, k, end, extra, left, m, m');
    }
  }

  lemma HarmlessOn(s: seq<Seg>, k: nat, end: int, extra: nat, left: nat, m: nat, m': nat)
    requires ValidSky(s) && k < |s| - 2 && s[k + 1].x < end <= End(s) && 0 < extra
    requires CountedOn(s, k, end, extra, left, m, m') && AllHarmless(s, k, end, extra, m)
    ensures (left == extra || s[k].y == 0) && AllHarmless(s, k + 1, end, left, m')
  {
    Before(s, k);
    forall n | k + 1 <= n < |s| - 1 && s[n].x < end && end - left < s[n + 1].x
      ensures Harmless(s, k + 1, end, m', n)
    {
      assert Harmless(s, k, end, m, n);
    }
    if left < extra { assert Harmless(s, k, end, m, k); }
  }

  lemma HarmlessBack(s: seq<Seg>, k: nat, end: int, extra: nat, left: nat, m: nat, m': nat)
    requires ValidSky(s) && k < |s| - 2 && s[k + 1].x < end <= End(s) && 0 < extra
    requires CountedOn(s, k, end, extra, left, m, m')
    requires (left == extra || s[k].y == 0) && AllHarmless(s, k + 1, end, left, m')
    ensures AllHarmless(s, k, end, extra, m)
  {
    forall n | k <= n < |s| - 1 && s[n].x < end && end - extra < s[n + 1].x
      ensures Harmless(s, k, end, m, n)
    {
      if n > k {
        Before(s, n);
        FarBehind(s, k, n);
        assert Harmless(s, k + 1, end, m', n);
      }
    }
  }

  lemma FarBehind(s: seq<Seg>, k: nat, n: nat)
    requires ValidSky(s) && k < n < |s| - 1
    ensures s[k + 1].x < s[n + 1].x
  {
  }

  /** The reported waste is the area lost under the rectangle if and only if its left end stands on a
      node, or on a column of positive height, or no node under its right end, as far back as the first
      node starts too early, has a height to charge. */
  lemma WasteIsAreaIff(s: seq<Seg>, x: int, w: int)
    requires ValidSky(s) && 0 <= x && 0 < w && x + w <= End(s)
    ensures var i := IndexAt(s, x);
            Waste(s, x, w) == Area(s, x, x + w, MaxHeight(s, x, x + w)) <==>
            s[i].x == x || Height(s, x) > 0 || AllHarmless(s, i, x + w, x - s[i].x, 0)
  {
    hide Waste, Area, Excess, MaxHeight, Increasing;
    WasteOverCounts(s, x, w);
    NoExcess(s, IndexAt(s, x), x + w, Overhang(s, x), 0);
  }
}
