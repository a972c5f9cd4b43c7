/** `stbrp_pack_rects`: rectangles are sorted, packed one by one, and put back in the caller's order. */
module PackRects {
  import opened Wrappers
  import opened Permutations
  import opened Targets
  import opened RectPack

  /** `STBRP__MAXVAL`, the mark of a rectangle that found no place. */
  const MAXVAL := 0x7fff_ffff

  datatype Rect = Rect(id: int, w: int, h: int, x: int, y: int, was_packed: int)

  /** `rect_height_compare`: higher first, then wider. */
  function RectHeightCompare(p: Rect, q: Rect): int {
    if p.h > q.h then -1 else if p.h < q.h then 1
    else if p.w > q.w then -1 else if p.w < q.w then 1 else 0
  }

  /** `rect_original_order`: by the index kept in `was_packed`. */
  function RectOriginalOrder(p: Rect, q: Rect): int {
    if p.was_packed < q.was_packed then -1 else if p.was_packed > q.was_packed then 1 else 0
  }

  // ---------------------------------------------------------------- sorting

  ghost predicate TotalPreorder(cmp: (Rect, Rect) -> int) {
    && (forall a, b :: cmp(a, b) <= 0 || cmp(b, a) <= 0)
    && (forall a, b :: cmp(a, b) > 0 ==> cmp(b, a) <= 0)
    && (forall a, b, c :: cmp(a, b) <= 0 && cmp(b, c) <= 0 ==> cmp(a, c) <= 0)
  }

  ghost predicate SortedBy(cmp: (Rect, Rect) -> int, s: seq<Rect>) {
    forall i, j :: 0 <= i < j < |s| ==> cmp(s[i], s[j]) <= 0
  }

  /** `s` lists `before` in the order `perm`. */
  ghost predicate Lists(s: seq<Rect>, before: seq<Rect>, perm: seq<int>) {
    |s| == |before| && IsPermutation(perm, |before|) && forall i :: 0 <= i < |s| ==> s[i] == before[perm[i]]
  }

  /** Sorted but for the element at `j`, which may belong further left. */
  ghost predicate SortedExcept(cmp: (Rect, Rect) -> int, s: seq<Rect>, j: int, end: int) {
    0 <= j < end <= |s| && (forall p, q :: 0 <= p < q < end && q != j ==> cmp(s[p], s[q]) <= 0)
  }

  ghost function Swapped<T>(s: seq<T>, j: int): seq<T>
    requires 0 < j < |s|
  {
    s[j - 1 := s[j]][j := s[j - 1]]
  }

  lemma SwapLists(s: seq<Rect>, before: seq<Rect>, perm: seq<int>, j: int)
    requires Lists(s, before, perm) && 0 < j < |s|
    ensures Lists(Swapped(s, j), before, Swapped(perm, j))
  {
    var q := Swapped(perm, j);
    forall a, b | 0 <= a < b < |q| ensures q[a] != q[b] {
      var a' := if a == j then j - 1 else if a == j - 1 then j else a;
      var b' := if b == j then j - 1 else if b == j - 1 then j else b;
      assert q[a] == perm[a'] && q[b] == perm[b'] && a' != b';
    }
  }

  lemma SwapSorts(cmp: (Rect, Rect) -> int, s: seq<Rect>, j: int, end: int)
    requires TotalPreorder(cmp) && SortedExcept(cmp, s, j, end) && 0 < j && cmp(s[j - 1], s[j]) > 0
    ensures SortedExcept(cmp, Swapped(s, j), j - 1, end)
  {
    var r := Swapped(s, j);
    forall p, q | 0 <= p < q < end && q != j - 1 ensures cmp(r[p], r[q]) <= 0 {
      if q == j && p < j - 1 {
        assert cmp(s[p], s[j - 1]) <= 0;
      } else if q > j {
        assert cmp(s[if p == j then j - 1 else if p == j - 1 then j else p], s[q]) <= 0;
      }
    }
  }

  /** The last step: the element has found its place. */
  lemma SortedNow(cmp: (Rect, Rect) -> int, s: seq<Rect>, j: int, end: int)
    requires TotalPreorder(cmp) && SortedExcept(cmp, s, j, end) && (j == 0 || cmp(s[j - 1], s[j]) <= 0)
    ensures SortedBy(cmp, s[..end])
  {
    forall p, q | 0 <= p < q < end ensures cmp(s[p], s[q]) <= 0 {
      if q == j && p < j - 1 {
        assert cmp(s[p], s[j - 1]) <= 0;
      }
    }
  }

  lemma SortedStart(cmp: (Rect, Rect) -> int, s: seq<Rect>, i: nat)
    requires i < |s| && SortedBy(cmp, s[..i])
    ensures SortedExcept(cmp, s, i, i + 1)
  {
    assert forall p :: 0 <= p < i ==> s[p] == s[..i][p];
  }

  /** Moving element `i` to its place among the sorted ones in front of it. */
  method SiftDown(rects: array<Rect>, cmp: (Rect, Rect) -> int, i: nat, ghost before: seq<Rect>, ghost perm0: seq<int>)
    returns (ghost perm: seq<int>)
    requires TotalPreorder(cmp) && i < rects.Length
    requires Lists(rects[..], before, perm0) && SortedBy(cmp, rects[..i])
    modifies rects
    ensures Lists(rects[..], before, perm) && SortedBy(cmp, rects[..][..i + 1])
  {
    hide TotalPreorder, Swapped, Lists, SortedExcept, SortedBy;
    var j := i;
    perm := perm0;
    assert rects[..][..i] == rects[..i];
    SortedStart(cmp, rects[..], i);
    while j > 0 && cmp(rects[j - 1], rects[j]) > 0
      invariant 0 <= j <= i && Lists(rects[..], before, perm) && SortedExcept(cmp, rects[..], j, i + 1)
    {
      SwapSorts(cmp, rects[..], j, i + 1);
      perm := SwapPerm(rects[..], before, perm, j);
      SwapInPlace(rects, j);
      j := j - 1;
    }
    SortedNow(cmp, rects[..], j, i + 1);
  }

  ghost function SwapPerm(s: seq<Rect>, before: seq<Rect>, perm: seq<int>, j: int): (r: seq<int>)
    requires Lists(s, before, perm) && 0 < j < |s|
    ensures Lists(Swapped(s, j), before, r)
  {
    SwapLists(s, before, perm, j);
    Swapped(perm, j)
  }

  /** `STBRP_SORT` may be any sorting function; callers rely on this contract alone. */
  method Sort(rects: array<Rect>, cmp: (Rect, Rect) -> int) returns (ghost perm: seq<int>)
    requires TotalPreorder(cmp)
    modifies rects
    ensures Lists(rects[..], old(rects[..]), perm) && SortedBy(cmp, rects[..])
  {
    hide TotalPreorder;
    perm := Upto(0, rects.Length);
    for i := 0 to rects.Length
      invariant Lists(rects[..], old(rects[..]), perm) && SortedBy(cmp, rects[..i])
    {
      perm := SiftDown(rects, cmp, i, old(rects[..]), perm);
      assert rects[..][..i + 1] == rects[..i + 1];
    }
    assert rects[..rects.Length] == rects[..];
  }

  method SwapInPlace(rects: array<Rect>, j: int)
    requires 0 < j < rects.Length
    modifies rects
    ensures rects[..] == Swapped(old(rects[..]), j)
  {
    rects[j - 1], rects[j] := rects[j], rects[j - 1];
  }

  // ---------------------------------------------------------------- what a call does

  /** The place written into a rectangle: MAXVAL twice when there was none. */
  ghost function Spot(x: int, y: int): Option<(int, int)> {
    if x == MAXVAL && y == MAXVAL then None else Some((x, y))
  }

  /** One rectangle: an empty one goes to the origin and needs no space, any other is packed. */
  ghost predicate Outcome(t: Target, r: Rect, t': Target, x: int, y: int)
    requires Good(t) && 0 <= r.w && 0 <= r.h
  {
    if r.w == 0 || r.h == 0 then t' == t && x == 0 && y == 0
    else PackStep(t, r.w, r.h, t', Spot(x, y))
  }

  ghost predicate Sizes(rs: seq<Rect>) {
    forall i :: 0 <= i < |rs| ==> 0 <= rs[i].w && 0 <= rs[i].h
  }

  /** The rectangles `rs`, in this order, take the target through `ts` and get the positions in `c`. */
  ghost predicate Packs(rs: seq<Rect>, c: seq<Rect>, ts: seq<Target>, k: nat) {
    && Sizes(rs) && |c| == |rs| && k <= |rs| && |ts| == k + 1 && Good(ts[k])
    && forall m :: 0 <= m < k ==> Good(ts[m]) && Outcome(ts[m], rs[m], ts[m + 1], c[m].x, c[m].y)
  }

  /** Only positions differ. */
  ghost predicate SameRects(rs: seq<Rect>, c: seq<Rect>) {
    |c| == |rs| && forall m :: 0 <= m < |rs| ==> c[m] == rs[m].(x := c[m].x, y := c[m].y)
  }

  /** The loop over the sorted rectangles. */
  method PackAll(ctx: Context, rects: array<Rect>) returns (ghost ts: seq<Target>)
    requires ctx.Valid() && Sizes(rects[..])
    modifies ctx, ctx.nodes, rects
    ensures ctx.Valid() && ctx.nodes == old(ctx.nodes)
    ensures Packs(old(rects[..]), rects[..], ts, rects.Length) && SameRects(old(rects[..]), rects[..])
    ensures ts[0] == old(ctx.Contents()) && ts[rects.Length] == ctx.Contents()
  {
    hide Good, PackStep, Context.Contents, Spot;
    ghost var rs := rects[..];
    ts := [ctx.Contents()];
    GoodContents(ctx);
    for i := 0 to rects.Length
      invariant ctx.Valid() && ctx.nodes == old(ctx.nodes)
      invariant Packs(rs, rects[..], ts, i) && SameRects(rs, rects[..])
      invariant ts[0] == old(ctx.Contents()) && ts[i] == ctx.Contents()
    {
      ghost var before := rects[..];
      GoodContents(ctx);
      var x, y := PackOne(ctx, rects[i]);
      GoodContents(ctx);
      rects[i] := rects[i].(x := x, y := y);
      PacksMore(rs, before, ts, i, ctx.Contents(), x, y);
      assert rects[..] == before[i := before[i].(x := x, y := y)];
      ts := ts + [ctx.Contents()];
    }
  }

  lemma GoodContents(ctx: Context)
    requires ctx.Valid()
    ensures Good(ctx.Contents())
  {
  }

  /** The body of the loop. */
  method PackOne(ctx: Context, r: Rect) returns (x: int, y: int)
    requires ctx.Valid() && 0 <= r.w && 0 <= r.h && Good(ctx.Contents())
    modifies ctx, ctx.nodes
    ensures ctx.Valid() && ctx.nodes == old(ctx.nodes)
    ensures Outcome(old(ctx.Contents()), r, ctx.Contents(), x, y)
    ensures r.w == 0 || r.h == 0 ==> x == 0 && y == 0 && ctx.Contents() == old(ctx.Contents())
  {
    hide Good, PackStep, Context.Contents, Context.Valid;
    if r.w == 0 || r.h == 0 {
      x, y := 0, 0;
    } else {
      ghost var t := ctx.Contents();
      var fr := ctx.PackRectangle(r.w, r.h);
      if fr.prev_link != NoLink {
        SpotInside(t, r.w, r.h, ctx.Contents(), fr.x, fr.y);
        x, y := fr.x, fr.y;
      } else {
        x, y := MAXVAL, MAXVAL;
      }
    }
  }

  /** A position is never the mark for none. */
  lemma SpotInside(t: Target, w: int, h: int, t': Target, x: int, y: int)
    requires Good(t) && 0 < w && 0 < h && PackStep(t, w, h, t', Some((x, y)))
    ensures Spot(x, y) == Some((x, y))
  {
    ChosenPlaces(t, w, h, x);
  }

  lemma PacksMore(rs: seq<Rect>, c: seq<Rect>, ts: seq<Target>, k: nat, t': Target, x: int, y: int)
    requires Packs(rs, c, ts, k) && SameRects(rs, c) && k < |rs| && Good(t')
    requires Outcome(ts[k], rs[k], t', x, y)
    ensures var c' := c[k := c[k].(x := x, y := y)];
            Packs(rs, c', ts + [t'], k + 1) && SameRects(rs, c')
  {
    hide Good, PackStep, Spot;
    var c', ts' := c[k := c[k].(x := x, y := y)], ts + [t'];
    forall m | 0 <= m < k + 1 ensures Good(ts'[m]) && Outcome(ts'[m], rs[m], ts'[m + 1], c'[m].x, c'[m].y) {
      assert ts'[m] == ts[m];
      if m < k { assert ts'[m + 1] == ts[m + 1]; }
    }
  }

  // ---------------------------------------------------------------- back to the caller's order

  ghost predicate Tagged(before: seq<Rect>, tagged: seq<Rect>) {
    |tagged| == |before| && forall i :: 0 <= i < |before| ==> tagged[i] == before[i].(was_packed := i)
  }

  ghost predicate Flagged(after: seq<Rect>, c: seq<Rect>) {
    |after| == |c| && forall i :: 0 <= i < |c| ==>
      after[i] == c[i].(was_packed := if c[i].x == MAXVAL && c[i].y == MAXVAL then 0 else 1)
  }

  /** What `stbrp_pack_rects` does to the caller's rectangles: in the order `order`, sorted by the
      comparator, they take the target through `ts`; each index keeps its id, width and height, gets its
      position, and is flagged unless it found none. */
  ghost predicate Packed(before: seq<Rect>, after: seq<Rect>, order: seq<int>, ts: seq<Target>) {
    && Sizes(before) && |after| == |before| && IsPermutation(order, |before|) && |ts| == |before| + 1
    && (forall j, k :: 0 <= j < k < |before| ==> RectHeightCompare(before[order[j]], before[order[k]]) <= 0)
    && (forall k :: 0 <= k < |before| ==>
          Good(ts[k]) && Outcome(ts[k], before[order[k]], ts[k + 1], after[order[k]].x, after[order[k]].y))
    && Good(ts[|before|])
    && (forall i :: 0 <= i < |before| ==>
          after[i] == before[i].(x := after[i].x, y := after[i].y,
                                 was_packed := if after[i].x == MAXVAL && after[i].y == MAXVAL then 0 else 1))
  }

  lemma HeightOrder()
    ensures TotalPreorder(RectHeightCompare)
    ensures forall p, q :: RectHeightCompare(p, q) <= 0 <==> p.h > q.h || (p.h == q.h && p.w >= q.w)
  {
  }

  lemma OriginalOrder()
    ensures TotalPreorder(RectOriginalOrder)
    ensures forall p, q :: RectOriginalOrder(p, q) <= 0 <==> p.was_packed <= q.was_packed
  {
  }

  /** Sorting by the index kept in `was_packed` undoes the first sort. */
  lemma Unsorted(tagged: seq<Rect>, mid: seq<Rect>, p: seq<int>, c: seq<Rect>, fin: seq<Rect>, q: seq<int>)
    requires (forall i :: 0 <= i < |tagged| ==> tagged[i].was_packed == i)
    requires Lists(mid, tagged, p) && SameRects(mid, c) && Lists(fin, c, q) && SortedBy(RectOriginalOrder, fin)
    ensures forall i :: 0 <= i < |tagged| ==> p[q[i]] == i
    ensures forall k :: 0 <= k < |tagged| ==> q[p[k]] == k
  {
    var n := |tagged|;
    var ids := seq(n, i requires 0 <= i < n => p[q[i]]);
    forall i | 0 <= i < n ensures ids[i] == fin[i].was_packed {
      assert fin[i] == c[q[i]];
      assert mid[q[i]] == tagged[p[q[i]]];
    }
    forall i, j | 0 <= i < j < n ensures ids[i] <= ids[j] && ids[i] != ids[j] {
      assert RectOriginalOrder(fin[i], fin[j]) <= 0;
      assert q[i] != q[j];
    }
    forall i | 0 <= i < n ensures p[q[i]] == i {
      SortedIsIdentity(ids, n, i);
    }
    forall k | 0 <= k < n ensures q[p[k]] == k {
      assert p[q[p[k]]] == p[k];
    }
  }

  lemma Assembled(before: seq<Rect>, tagged: seq<Rect>, mid: seq<Rect>, p: seq<int>, c: seq<Rect>,
                  fin: seq<Rect>, q: seq<int>, after: seq<Rect>, ts: seq<Target>)
    requires Sizes(before) && Tagged(before, tagged) && Lists(mid, tagged, p) && SortedBy(RectHeightCompare, mid)
    requires SameRects(mid, c) && Packs(mid, c, ts, |mid|)
    requires Lists(fin, c, q) && SortedBy(RectOriginalOrder, fin) && Flagged(after, fin)
    ensures Packed(before, after, p, ts)
  {
    hide Good, PackStep, Spot;
    Unsorted(tagged, mid, p, c, fin, q);
    forall i | 0 <= i < |before|
      ensures after[i] == before[i].(x := after[i].x, y := after[i].y,
                                     was_packed := if after[i].x == MAXVAL && after[i].y == MAXVAL then 0 else 1)
    {
      assert fin[i] == c[q[i]] && mid[q[i]] == tagged[p[q[i]]];
    }
    forall k | 0 <= k < |before|
      ensures Good(ts[k]) && Outcome(ts[k], before[p[k]], ts[k + 1], after[p[k]].x, after[p[k]].y)
    {
      assert fin[p[k]] == c[q[p[k]]] && mid[k] == tagged[p[k]];
    }
    forall j, k | 0 <= j < k < |before| ensures RectHeightCompare(before[p[j]], before[p[k]]) <= 0 {
      assert RectHeightCompare(mid[j], mid[k]) <= 0;
      assert mid[j] == tagged[p[j]] && mid[k] == tagged[p[k]];
    }
  }

  // ---------------------------------------------------------------- no overlap

  /** The rectangle as placed. */
  ghost function AsPlaced(r: Rect): Placed {
    Placed(r.x, r.y, r.w, r.h)
  }

  /** A rectangle that takes up space: not empty, and flagged. */
  ghost predicate TakesSpace(r: Rect) {
    r.w != 0 && r.h != 0 && r.was_packed != 0
  }

  /** One step adds the rectangle to the placed ones if it takes up space, and nothing else. */
  lemma StepAdds(before: seq<Rect>, after: seq<Rect>, order: seq<int>, ts: seq<Target>, k: nat)
    requires Packed(before, after, order, ts) && k < |before|
    ensures ts[k + 1].placed ==
            ts[k].placed + (if TakesSpace(after[order[k]]) then [AsPlaced(after[order[k]])] else [])
    ensures ts[k + 1].width == ts[k].width && ts[k + 1].height == ts[k].height
    ensures before[order[k]].w == 0 || before[order[k]].h == 0 ==> after[order[k]].was_packed == 1
  {
    hide Good, Chosen, SortedBy;
    var i := order[k];
    assert Outcome(ts[k], before[i], ts[k + 1], after[i].x, after[i].y);
    assert after[i] == before[i].(x := after[i].x, y := after[i].y, was_packed := after[i].was_packed);
    assert 0 <= before[i].w && 0 <= before[i].h;
  }

  lemma {:induction false} PlacedPrefix(before: seq<Rect>, after: seq<Rect>, order: seq<int>, ts: seq<Target>,
                                         j: nat, k: nat)
    requires Packed(before, after, order, ts) && j <= k <= |before|
    ensures ts[j].placed <= ts[k].placed
    ensures ts[j].width == ts[k].width && ts[j].height == ts[k].height
    decreases k
  {
    hide Packed;
    if j < k {
      PackedLength(before, after, order, ts);
      PlacedPrefix(before, after, order, ts, j, k - 1);
      StepAdds(before, after, order, ts, k - 1);
    }
  }

  lemma PackedLength(before: seq<Rect>, after: seq<Rect>, order: seq<int>, ts: seq<Target>)
    requires Packed(before, after, order, ts)
    ensures |ts| == |before| + 1 && |after| == |before| && IsPermutation(order, |before|) && Good(ts[|before|])
  {
  }

  /** A rectangle that takes up space is placed at the end, at the slot that was free at its turn. */
  lemma SlotOf(before: seq<Rect>, after: seq<Rect>, order: seq<int>, ts: seq<Target>, k: nat)
    requires Packed(before, after, order, ts) && k < |before| && TakesSpace(after[order[k]])
    ensures |ts| == |before| + 1
    ensures var slot := |ts[k].placed|;
            && slot < |ts[k + 1].placed| <= |ts[|before|].placed|
            && ts[|before|].placed[slot] == AsPlaced(after[order[k]])
  {
    StepAdds(before, after, order, ts, k);
    PlacedPrefix(before, after, order, ts, k + 1, |before|);
  }

  /** After a call, all rectangles that take up space lie inside the target and are disjoint from each
      other and from everything placed by earlier calls. */
  lemma PackedSafe(before: seq<Rect>, after: seq<Rect>, order: seq<int>, ts: seq<Target>, i: nat)
    requires Packed(before, after, order, ts) && i < |after| && TakesSpace(after[i])
    ensures |ts| == |before| + 1 && Inside(AsPlaced(after[i]), ts[0].width, ts[0].height)
    ensures forall j :: 0 <= j < |after| && j != i && TakesSpace(after[j]) ==>
                        Disjoint(AsPlaced(after[i]), AsPlaced(after[j]))
    ensures forall p :: 0 <= p < |ts[0].placed| ==> Disjoint(ts[0].placed[p], AsPlaced(after[i]))
  {
    hide Packed, IsPermutation, Disjoint;
    PackedLength(before, after, order, ts);
    var n := |before|;
    var k := IndexOf(order, n, i);
    SlotOf(before, after, order, ts, k);
    PlacedPrefix(before, after, order, ts, 0, n);
    PlacedPrefix(before, after, order, ts, 0, k);
    var t, a := ts[n], |ts[k].placed|;
    forall j | 0 <= j < n && j != i && TakesSpace(after[j])
      ensures Disjoint(AsPlaced(after[i]), AsPlaced(after[j]))
    {
      var m := IndexOf(order, n, j);
      SlotOf(before, after, order, ts, m);
      var b := |ts[m].placed|;
      if k < m {
        PlacedPrefix(before, after, order, ts, k + 1, m);
        assert Disjoint(t.placed[a], t.placed[b]);
      } else {
        PlacedPrefix(before, after, order, ts, m + 1, k);
        assert Disjoint(t.placed[b], t.placed[a]);
        DisjointSymmetric(t.placed[b], t.placed[a]);
      }
    }
    forall p | 0 <= p < |ts[0].placed| ensures Disjoint(ts[0].placed[p], AsPlaced(after[i])) {
      assert t.placed[p] == ts[0].placed[p];
      assert Disjoint(t.placed[p], t.placed[a]);
    }
  }

  /** No two rectangles that take up space overlap. */
  ghost predicate AllDisjoint(rs: seq<Rect>) {
    forall i, j :: 0 <= i < |rs| && 0 <= j < |rs| && i != j ==>
                   (TakesSpace(rs[i]) && TakesSpace(rs[j]) ==> Disjoint(AsPlaced(rs[i]), AsPlaced(rs[j])))
  }

  lemma DisjointSymmetric(p: Placed, q: Placed)
    requires Disjoint(p, q)
    ensures Disjoint(q, p)
  {
  }

  // ---------------------------------------------------------------- the whole call

  /** The first loop: the original position is kept in `was_packed`. */
  method Tag(rects: array<Rect>)
    modifies rects
    ensures Tagged(old(rects[..]), rects[..])
  {
    for i := 0 to rects.Length
      invariant forall k :: 0 <= k < i ==> rects[k] == old(rects[k]).(was_packed := k)
      invariant forall k :: i <= k < rects.Length ==> rects[k] == old(rects[k])
    {
      rects[i] := rects[i].(was_packed := i);
    }
  }

  /** The last loop: the flags, and whether all are set. */
  method SetFlags(rects: array<Rect>) returns (all_rects_packed: int)
    modifies rects
    ensures Flagged(rects[..], old(rects[..]))
    ensures all_rects_packed == 0 || all_rects_packed == 1
    ensures all_rects_packed == 1 <==> forall i :: 0 <= i < rects.Length ==> rects[i].was_packed == 1
  {
    all_rects_packed := 1;
    for i := 0 to rects.Length
      invariant forall k :: 0 <= k < i ==>
        rects[k] ==
        old(rects[k]).(was_packed := if old(rects[k]).x == MAXVAL && old(rects[k]).y == MAXVAL then 0 else 1)
      invariant forall k :: i <= k < rects.Length ==> rects[k] == old(rects[k])
      invariant all_rects_packed == 0 || all_rects_packed == 1
      invariant all_rects_packed == 1 <==> forall k :: 0 <= k < i ==> rects[k].was_packed == 1
    {
      var packed := !(rects[i].x == MAXVAL && rects[i].y == MAXVAL);
      rects[i] := rects[i].(was_packed := if packed then 1 else 0);
      if !packed {
        all_rects_packed := 0;
      }
    }
  }

  /** Tagging, sorting, packing, sorting back and flagging. */
  method PackInOrder(ctx: Context, rects: array<Rect>)
    returns (all_rects_packed: int, ghost order: seq<int>, ghost ts: seq<Target>)
    requires ctx.Valid() && Sizes(rects[..])
    modifies ctx, ctx.nodes, rects
    ensures ctx.Valid() && ctx.nodes == old(ctx.nodes)
    ensures Packed(old(rects[..]), rects[..], order, ts)
    ensures ts[0] == old(ctx.Contents()) && ts[rects.Length] == ctx.Contents()
    ensures all_rects_packed == 0 || all_rects_packed == 1
    ensures all_rects_packed == 1 <==> forall i :: 0 <= i < rects.Length ==> rects[i].was_packed == 1
  {
    hide Context.Valid, Context.Contents, Packs, Good, TotalPreorder, SortedBy, Packed, Lists, Tagged, Flagged,
         SameRects, TakesSpace, Disjoint;
    ghost var before := rects[..];
    Tag(rects);
    ghost var tagged := rects[..];
    HeightOrder();
    order := Sort(rects, RectHeightCompare);
    ghost var mid := rects[..];
    SizesKept(before, tagged, mid, order);
    ts := PackAll(ctx, rects);
    ghost var c := rects[..];
    OriginalOrder();
    ghost var q := Sort(rects, RectOriginalOrder);
    ghost var fin := rects[..];
    all_rects_packed := SetFlags(rects);
    Assembled(before, tagged, mid, order, c, fin, q, rects[..], ts);
    PackedLength(before, rects[..], order, ts);
  }

  /** `stbrp_pack_rects` */
  method PackRects(ctx: Context, rects: array<Rect>)
    returns (all_rects_packed: int, ghost order: seq<int>, ghost ts: seq<Target>)
    requires ctx.Valid() && Sizes(rects[..])
    modifies ctx, ctx.nodes, rects
    ensures ctx.Valid() && ctx.nodes == old(ctx.nodes)
    ensures Packed(old(rects[..]), rects[..], order, ts)
    ensures ts[0] == old(ctx.Contents()) && ts[rects.Length] == ctx.Contents()
    ensures all_rects_packed == 0 || all_rects_packed == 1
    ensures all_rects_packed == 1 <==> forall i :: 0 <= i < rects.Length ==> rects[i].was_packed == 1
    // the packing order: higher first, among equal heights wider first
    ensures IsPermutation(order, rects.Length)
    ensures forall j, k :: 0 <= j < k < rects.Length ==>
              var p, q := old(rects[..])[order[j]], old(rects[..])[order[k]];
              p.h > q.h || (p.h == q.h && p.w >= q.w)
    // every index keeps its rectangle; an empty one lies at the origin, one that found no place has the mark
    ensures forall i :: 0 <= i < rects.Length ==>
              var r, before := rects[i], old(rects[..])[i];
              && r.id == before.id && r.w == before.w && r.h == before.h
              && (before.w == 0 || before.h == 0 ==> r.x == 0 && r.y == 0 && r.was_packed == 1)
              && (r.was_packed == 0 || r.was_packed == 1)
              && (r.was_packed == 0 <==> r.x == 0x7fff_ffff && r.y == 0x7fff_ffff)
    // the others lie inside the target and do not overlap
    ensures forall i :: 0 <= i < rects.Length && rects[i].w != 0 && rects[i].h != 0 && rects[i].was_packed == 1 ==>
              && 0 <= rects[i].x && rects[i].x + rects[i].w <= old(ctx.width)
              && 0 <= rects[i].y && rects[i].y + rects[i].h <= old(ctx.height)
    ensures forall i, j ::
              && 0 <= i < rects.Length && rects[i].w != 0 && rects[i].h != 0 && rects[i].was_packed == 1
              && 0 <= j < rects.Length && rects[j].w != 0 && rects[j].h != 0 && rects[j].was_packed == 1
              && i != j ==>
              var p, q := rects[i], rects[j];
              p.x + p.w <= q.x || q.x + q.w <= p.x || p.y + p.h <= q.y || q.y + q.h <= p.y
  {
    hide *;
    ghost var before := rects[..];
    ContentsSize(ctx);
    all_rects_packed, order, ts := PackInOrder(ctx, rects);
    PackedPlainly(before, rects[..], order, ts);
  }

  lemma ContentsSize(ctx: Context)
    ensures ctx.Contents().width == ctx.width && ctx.Contents().height == ctx.height
  {
  }

  /** What a call promises, in plain terms. */
  lemma PackedPlainly(before: seq<Rect>, after: seq<Rect>, order: seq<int>, ts: seq<Target>)
    requires Packed(before, after, order, ts)
    ensures |after| == |before| && IsPermutation(order, |before|) && |ts| == |before| + 1
    ensures forall i :: 0 <= i < |order| ==> 0 <= order[i] < |before|
    ensures AllDisjoint(after)
    ensures forall j, k :: 0 <= j < k < |before| ==>
              var p, q := before[order[j]], before[order[k]]; p.h > q.h || (p.h == q.h && p.w >= q.w)
    ensures forall i :: 0 <= i < |after| ==>
              var r, b := after[i], before[i];
              && r.id == b.id && r.w == b.w && r.h == b.h
              && (b.w == 0 || b.h == 0 ==> r.x == 0 && r.y == 0 && r.was_packed == 1)
              && (r.was_packed == 0 || r.was_packed == 1)
              && (r.was_packed == 0 <==> r.x == 0x7fff_ffff && r.y == 0x7fff_ffff)
    ensures forall i :: 0 <= i < |after| && after[i].w != 0 && after[i].h != 0 && after[i].was_packed == 1 ==>
              && 0 <= after[i].x && after[i].x + after[i].w <= ts[0].width
              && 0 <= after[i].y && after[i].y + after[i].h <= ts[0].height
    ensures forall i, j ::
              && 0 <= i < |after| && after[i].w != 0 && after[i].h != 0 && after[i].was_packed == 1
              && 0 <= j < |after| && after[j].w != 0 && after[j].h != 0 && after[j].was_packed == 1 && i != j ==>
              var p, q := after[i], after[j];
              p.x + p.w <= q.x || q.x + q.w <= p.x || p.y + p.h <= q.y || q.y + q.h <= p.y
  {
    hide Good, PackStep, Packed;
    PackedLength(before, after, order, ts);
    forall j, k | 0 <= j < k < |before|
      ensures var p, q := before[order[j]], before[order[k]]; p.h > q.h || (p.h == q.h && p.w >= q.w)
    {
      PackedOrder(before, after, order, ts, j, k);
    }
    forall i | 0 <= i < |after|
      ensures var r, b := after[i], before[i];
              && r.id == b.id && r.w == b.w && r.h == b.h
              && (b.w == 0 || b.h == 0 ==> r.x == 0 && r.y == 0 && r.was_packed == 1)
              && (r.was_packed == 0 || r.was_packed == 1)
              && (r.was_packed == 0 <==> r.x == 0x7fff_ffff && r.y == 0x7fff_ffff)
    {
      PackedRect(before, after, order, ts, i);
    }
    forall i | 0 <= i < |after| && after[i].w != 0 && after[i].h != 0 && after[i].was_packed == 1
      ensures && 0 <= after[i].x && after[i].x + after[i].w <= ts[0].width
              && 0 <= after[i].y && after[i].y + after[i].h <= ts[0].height
      ensures forall j ::
                && 0 <= j < |after| && after[j].w != 0 && after[j].h != 0 && after[j].was_packed == 1 && i != j ==>
                var p, q := after[i], after[j];
                p.x + p.w <= q.x || q.x + q.w <= p.x || p.y + p.h <= q.y || q.y + q.h <= p.y
    {
      PackedSafe(before, after, order, ts, i);
      assert TakesSpace(after[i]);
      assert forall j :: 0 <= j < |after| && j != i && TakesSpace(after[j]) ==>
                         Disjoint(AsPlaced(after[i]), AsPlaced(after[j]));
    }
  }

  lemma PackedOrder(before: seq<Rect>, after: seq<Rect>, order: seq<int>, ts: seq<Target>, j: nat, k: nat)
    requires Packed(before, after, order, ts) && j < k < |before|
    ensures 0 <= order[j] < |before| && 0 <= order[k] < |before|
    ensures var p, q := before[order[j]], before[order[k]]; p.h > q.h || (p.h == q.h && p.w >= q.w)
  {
    hide Good, Outcome;
    HeightOrder();
    assert RectHeightCompare(before[order[j]], before[order[k]]) <= 0;
  }

  lemma PackedRect(before: seq<Rect>, after: seq<Rect>, order: seq<int>, ts: seq<Target>, i: nat)
    requires Packed(before, after, order, ts) && i < |after|
    ensures |after| == |before|
    ensures var r, b := after[i], before[i];
            && r.id == b.id && r.w == b.w && r.h == b.h
            && (b.w == 0 || b.h == 0 ==> r.x == 0 && r.y == 0 && r.was_packed == 1)
            && (r.was_packed == 0 || r.was_packed == 1)
            && (r.was_packed == 0 <==> r.x == 0x7fff_ffff && r.y == 0x7fff_ffff)
  {
    hide Good, PackStep, Spot, Injective;
    PackedLength(before, after, order, ts);
    var k := IndexOf(order, |before|, i);
    assert Outcome(ts[k], before[order[k]], ts[k + 1], after[order[k]].x, after[order[k]].y);
  }

  lemma SizesKept(before: seq<Rect>, tagged: seq<Rect>, mid: seq<Rect>, p: seq<int>)
    requires Sizes(before) && Tagged(before, tagged) && Lists(mid, tagged, p)
    ensures Sizes(mid) && |mid| == |before|
  {
  }
}
