/** The skyline of the rectangle packer as a height map over the columns of the target. */
module Skyline {
  import opened Bytes

  /** One active node: the skyline has height `y` from column `x` to the next node. */
  datatype Seg = Seg(x: int, y: int)

  /** Height of the last node, which stands at the right edge of the target. */
  const SENTINEL := 0x4000_0000

  ghost predicate Increasing(s: seq<Seg>) {
    forall i, j :: 0 <= i < j < |s| ==> s[i].x < s[j].x
  }

  lemma Ordered(s: seq<Seg>)
    requires Increasing(s)
    ensures forall i, j :: 0 <= i <= j < |s| ==> s[i].x <= s[j].x
  {
  }

  lemma IncreasingConcat(a: seq<Seg>, b: seq<Seg>)
    requires Increasing(a) && Increasing(b)
    requires a != [] && b != [] ==> a[|a| - 1].x < b[0].x
    ensures Increasing(a + b)
  {
    var r := a + b;
    Ordered(a);
    Ordered(b);
    forall i, j | 0 <= i < j < |r| ensures r[i].x < r[j].x {
      assert r[i] == if i < |a| then a[i] else b[i - |a|];
      assert r[j] == if j < |a| then a[j] else b[j - |a|];
    }
  }

  /** What every reachable active list is. */
  ghost predicate ValidSky(s: seq<Seg>) {
    && |s| >= 2 && s[0].x == 0 && s[|s| - 1].y == SENTINEL
    && Increasing(s)
    && forall i :: 0 <= i < |s| - 1 ==> 0 <= s[i].y
  }

  /** The right edge. */
  ghost function End(s: seq<Seg>): int
    requires |s| >= 2
  {
    s[|s| - 1].x
  }

  /** The node whose segment holds column `c`, searched from node `i` on. */
  ghost function Locate(s: seq<Seg>, c: int, i: nat): (k: nat)
    requires ValidSky(s) && i < |s| - 1 && s[i].x <= c < End(s)
    ensures i <= k < |s| - 1 && s[k].x <= c < s[k + 1].x
    decreases |s| - i
  {
    if c < s[i + 1].x then i else Locate(s, c, i + 1)
  }

  ghost function IndexAt(s: seq<Seg>, c: int): (k: nat)
    requires ValidSky(s) && 0 <= c < End(s)
    ensures k < |s| - 1 && s[k].x <= c < s[k + 1].x
  {
    Locate(s, c, 0)
  }

  lemma IndexUnique(s: seq<Seg>, c: int, i: nat)
    requires ValidSky(s) && i < |s| - 1 && s[i].x <= c < s[i + 1].x
    ensures 0 <= c < End(s) && IndexAt(s, c) == i
  {
    Ordered(s);
    var k := IndexAt(s, c);
    assert k <= i && i <= k;
  }

  /** The height map. */
  ghost function Height(s: seq<Seg>, c: int): (y: int)
    requires ValidSky(s) && 0 <= c < End(s)
    ensures 0 <= y
  {
    s[IndexAt(s, c)].y
  }

  /** Column `c` is a highest one of [a, b). */
  ghost predicate IsHighest(s: seq<Seg>, a: int, b: int, c: int)
    requires ValidSky(s) && 0 <= a && b <= End(s)
  {
    a <= c < b && forall d :: a <= d < b ==> Height(s, d) <= Height(s, c)
  }

  lemma {:induction false} HighestExists(s: seq<Seg>, a: int, b: int)
    requires ValidSky(s) && 0 <= a < b <= End(s)
    ensures exists c :: IsHighest(s, a, b, c)
    decreases b - a
  {
    hide Height, ValidSky;
    if a == b - 1 {
      assert IsHighest(s, a, b, a);
    } else {
      HighestExists(s, a, b - 1);
      var c :| IsHighest(s, a, b - 1, c);
      assert IsHighest(s, a, b, if Height(s, c) < Height(s, b - 1) then b - 1 else c);
    }
  }

  /** The height of [a, b); 0 when there is no column. */
  ghost function MaxHeight(s: seq<Seg>, a: int, b: int): (y: int)
    requires ValidSky(s) && 0 <= a && b <= End(s)
    ensures 0 <= y
    ensures forall c :: a <= c < b ==> Height(s, c) <= y
    ensures a < b ==> exists c :: a <= c < b && Height(s, c) == y
  {
    if a >= b then 0
    else
      HighestExists(s, a, b);
      var c :| IsHighest(s, a, b, c);
      Height(s, c)
  }

  /** Extending a range over columns of one height. */
  lemma MaxHeightExtend(s: seq<Seg>, a: int, b: int, b': int, y: int)
    requires ValidSky(s) && 0 <= a <= b < b' <= End(s)
    requires forall c :: b <= c < b' ==> Height(s, c) == y
    ensures MaxHeight(s, a, b') == Max(MaxHeight(s, a, b), y)
  {
    hide Height, ValidSky;
    var m, m' := MaxHeight(s, a, b), MaxHeight(s, a, b');
    assert Height(s, b) == y <= m';
    var c' :| a <= c' < b' && Height(s, c') == m';
    if a < b {
      var c :| a <= c < b && Height(s, c) == m;
      assert Height(s, c) <= m';
    }
  }

  /** The columns of one segment. */
  lemma SegmentHeight(s: seq<Seg>, i: nat, c: int)
    requires ValidSky(s) && i < |s| - 1 && s[i].x <= c < s[i + 1].x
    ensures 0 <= c < End(s) && Height(s, c) == s[i].y
  {
    IndexUnique(s, c, i);
  }

  // ---------------------------------------------------------------- where the lowest place is

  /** Moving a range left to the node under its left end does not raise it. */
  lemma NodesSuffice(s: seq<Seg>, x: int, w: int)
    requires ValidSky(s) && 0 <= x && 0 < w && x + w <= End(s)
    ensures var n := s[IndexAt(s, x)].x;
            0 <= n <= x && MaxHeight(s, n, n + w) <= MaxHeight(s, x, x + w)
  {
    hide Increasing, Height;
    var i := IndexAt(s, x);
    var n := s[i].x;
    Before(s, i);
    var c :| n <= c < n + w && Height(s, c) == MaxHeight(s, n, n + w);
    if c < x {
      SegmentHeight(s, i, c);
      SegmentHeight(s, i, x);
      assert Height(s, x) <= MaxHeight(s, x, x + w);
    }
  }

  // ---------------------------------------------------------------- placing a rectangle

  /** The last node that starts at or before `limit`, from node `j` on; the nodes passed are freed. */
  ghost function SkipTo(s: seq<Seg>, j: nat, limit: int): (k: nat)
    requires j < |s|
    ensures j <= k < |s|
    ensures k + 1 < |s| ==> limit < s[k + 1].x
    ensures forall i :: j < i <= k ==> s[i].x <= limit
    decreases |s| - j
  {
    if j + 1 < |s| && s[j + 1].x <= limit then SkipTo(s, j + 1, limit) else j
  }

  /** How many nodes stay in front of the new one when it is linked in at node `i`. */
  ghost function Kept(s: seq<Seg>, i: nat, x: int): nat
    requires i < |s|
  {
    if s[i].x < x then i + 1 else i
  }

  /** The skyline after a new node (x, top) of width `w` is linked in at node `i`. */
  ghost function Insert(s: seq<Seg>, i: nat, x: int, w: int, top: int): seq<Seg>
    requires i < |s| - 1
  {
    var k := Kept(s, i, x);
    var j := SkipTo(s, k, x + w);
    s[..k] + [Seg(x, top), Seg(Max(s[j].x, x + w), s[j].y)] + s[j + 1..]
  }

  /** A placement at node `i`: the left end lies in its segment and the right end inside the target. */
  ghost predicate PlaceAt(s: seq<Seg>, i: nat, x: int, w: int) {
    ValidSky(s) && i < |s| - 1 && s[i].x <= x < s[i + 1].x && 0 < w && x + w <= End(s)
  }

  /** Where the new node's segment ends: at the right end of the rectangle, or further right when
      the rectangle ends inside the segment its left end splits. */
  ghost function InsertEnd(s: seq<Seg>, i: nat, x: int, w: int): int
    requires i < |s| - 1
  {
    if s[i].x < x then Max(x + w, s[i + 1].x) else x + w
  }

  /** Two nodes in place of the stretch [k, j]. */
  lemma SpliceIncreasing(s: seq<Seg>, k: nat, j: nat, a: Seg, b: Seg)
    requires Increasing(s) && k <= j < |s| && a.x < b.x
    requires (k > 0 ==> s[k - 1].x < a.x) && (j + 1 < |s| ==> b.x < s[j + 1].x)
    ensures Increasing(s[..k] + [a, b] + s[j + 1..])
  {
    IncreasingConcat(s[..k], [a, b]);
    IncreasingConcat(s[..k] + [a, b], s[j + 1..]);
  }

  /** Where the nodes of the old list stand in the new one. */
  lemma InsertNodes(s: seq<Seg>, i: nat, x: int, w: int, top: int)
    requires i < |s| - 1
    ensures var k := Kept(s, i, x); var j := SkipTo(s, k, x + w); var r := Insert(s, i, x, w, top);
            && k <= j < |s| && |r| == |s| + k + 1 - j
            && r[k] == Seg(x, top) && r[k + 1] == Seg(Max(s[j].x, x + w), s[j].y)
            && (forall n :: 0 <= n < k ==> r[n] == s[n])
            && (forall n :: j < n < |s| ==> r[n - j + k + 1] == s[n])
  {
  }

  lemma SplicedValid(s: seq<Seg>, r: seq<Seg>, k: nat, j: nat)
    requires ValidSky(s) && Increasing(r) && k <= j < |s| && |r| == |s| + k + 1 - j && r[0].x == 0
    requires 0 <= r[k].y && s[j].x <= r[k + 1].x && r[k + 1].y == s[j].y
    requires j == |s| - 1 ==> r[k + 1].x == End(s)
    requires forall n :: 0 <= n < k ==> r[n] == s[n]
    requires forall n :: j < n < |s| ==> r[n - j + k + 1] == s[n]
    ensures ValidSky(r) && End(r) == End(s)
  {
    hide Increasing;
    assert forall n :: k + 1 < n < |r| ==> r[n] == s[n - k - 1 + j];
  }

  lemma InsertIncreasing(s: seq<Seg>, i: nat, x: int, w: int, top: int)
    requires PlaceAt(s, i, x, w)
    ensures Increasing(Insert(s, i, x, w, top))
  {
    hide Increasing;
    var k := Kept(s, i, x);
    var j := SkipTo(s, k, x + w);
    Before(s, i);
    Before(s, j);
    SpliceIncreasing(s, k, j, Seg(x, top), Seg(Max(s[j].x, x + w), s[j].y));
  }

  lemma InsertValid(s: seq<Seg>, i: nat, x: int, w: int, top: int)
    requires PlaceAt(s, i, x, w) && 0 <= top
    ensures ValidSky(Insert(s, i, x, w, top)) && End(Insert(s, i, x, w, top)) == End(s)
  {
    hide Increasing, Insert, SkipTo;
    var k := Kept(s, i, x);
    var j := SkipTo(s, k, x + w);
    InsertIncreasing(s, i, x, w, top);
    InsertNodes(s, i, x, w, top);
    SplicedValid(s, Insert(s, i, x, w, top), k, j);
  }

  lemma Before(s: seq<Seg>, i: nat)
    requires ValidSky(s) && i < |s|
    ensures i > 0 ==> s[i - 1].x < s[i].x
    ensures i + 1 < |s| ==> s[i].x < s[i + 1].x
    ensures 0 <= s[i].x <= End(s)
  {
    Ordered(s);
  }

  /** The new node ends at `InsertEnd`, in front of the next node. */
  lemma InsertEndAt(s: seq<Seg>, i: nat, x: int, w: int)
    requires PlaceAt(s, i, x, w)
    ensures var k := Kept(s, i, x); var j := SkipTo(s, k, x + w);
            && Max(s[j].x, x + w) == InsertEnd(s, i, x, w)
            && x <= s[k].x && s[j].x <= InsertEnd(s, i, x, w)
  {
    Before(s, i);
  }

  /** Exactly the columns from `x` to `InsertEnd` are set to the new height. */
  lemma InsertHeight(s: seq<Seg>, i: nat, x: int, w: int, top: int, c: int)
    requires PlaceAt(s, i, x, w) && 0 <= top && 0 <= c < End(s)
    requires ValidSky(Insert(s, i, x, w, top)) && End(Insert(s, i, x, w, top)) == End(s)
    ensures Height(Insert(s, i, x, w, top), c) ==
            if x <= c < InsertEnd(s, i, x, w) then top else Height(s, c)
  {
    hide Increasing, Insert, InsertEnd, SkipTo;
    var k := Kept(s, i, x);
    var j := SkipTo(s, k, x + w);
    var r, m := Insert(s, i, x, w, top), IndexAt(s, c);
    InsertNodes(s, i, x, w, top);
    InsertEndAt(s, i, x, w);
    if c < x {
      HeightBefore(s, r, k, c);
    } else if c < InsertEnd(s, i, x, w) {
      SegmentHeight(r, k, c);
    } else {
      HeightBehind(s, r, k, j, c);
    }
  }

  lemma HeightBefore(s: seq<Seg>, r: seq<Seg>, k: nat, c: int)
    requires ValidSky(s) && ValidSky(r) && k < |s| && k < |r| - 1 && 0 <= c < r[k].x <= s[k].x
    requires forall n :: 0 <= n < k ==> r[n] == s[n]
    ensures c < End(s) && c < End(r) && Height(r, c) == Height(s, c)
  {
    Ordered(s);
    Before(r, k);
    var m := IndexAt(s, c);
    assert m < k;
    SegmentHeight(r, m, c);
  }

  lemma HeightBehind(s: seq<Seg>, r: seq<Seg>, k: nat, j: nat, c: int)
    requires ValidSky(s) && ValidSky(r) && k + 1 < |r| && j < |s| && |r| == |s| + k + 1 - j
    requires s[j].x <= r[k + 1].x <= c < End(s) && r[k + 1].y == s[j].y
    requires forall n :: j < n < |s| ==> r[n - j + k + 1] == s[n]
    ensures 0 <= c < End(r) && Height(r, c) == Height(s, c)
  {
    Ordered(s);
    Before(s, j);
    var m := IndexAt(s, c);
    assert m >= j;
    assert r[m + 1 - j + k + 1] == s[m + 1];
    assert m > j ==> r[m - j + k + 1] == s[m];
    SegmentHeight(r, m - j + k + 1, c);
  }
}
