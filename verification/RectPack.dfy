/** The skyline packer of `imstb_rectpack.h` over its node pool. */
module RectPack {
  import opened Wrappers
  import opened Bytes
  import opened Permutations
  import opened Skyline
  import opened Packing
  import opened Targets
  import opened NodeLists
  import opened Relinking

  const INIT_SKYLINE := 1
  const BOTTOM_LEFT := 0
  const BEST_FIT := 1

  /** A pointer to a pointer: to `active_head` or to the `next` field of a node. */
  datatype Link = NoLink | HeadLink | NextLink(node: int)

  datatype FindResult = FindResult(x: int, y: int, prev_link: Link)

  /** The indices from `i` up to `n`. */
  ghost function Upto(i: nat, n: nat): (r: seq<int>)
    requires i <= n
    ensures |r| == n - i && forall k :: 0 <= k < n - i ==> r[k] == i + k
  {
    seq(n - i, k => i + k)
  }

  lemma {:induction false} ChainPath(nodes: seq<SNode>, i: nat, n: nat)
    requires i < n <= |nodes| && nodes[n - 1].next == NULL
    requires forall k :: i <= k < n - 1 ==> nodes[k].next == k + 1
    ensures Path(nodes, i, Upto(i, n), NULL)
    decreases n - i
  {
    if i + 1 < n {
      ChainPath(nodes, i + 1, n);
      assert Upto(i, n)[1..] == Upto(i + 1, n);
    } else {
      assert Upto(i, n)[1..] == [];
      assert Path(nodes, NULL, [], NULL);
    }
  }

  /** The arrays and fields of the context hold this target: the active and the free list are made of
      all the nodes of the pool, each once. */
  ghost predicate Holds(nodes: seq<SNode>, active_head: int, active: seq<int>, free_head: int, free: seq<int>,
                        t: Target) {
    && Lists(nodes, active_head, active, free_head, free, t.sky)
    && |nodes| == t.numNodes + 2 && t.free == |free|
  }

  class Context {
    var width: int
    var height: int
    var align: int
    var init_mode: int
    var heuristic: int
    var num_nodes: int
    var active_head: int
    var free_head: int
    /** The caller's nodes, and behind them the two extra nodes of the context. */
    var nodes: array<SNode>
    ghost var active: seq<int>
    ghost var free: seq<int>
    ghost var placed: seq<Placed>

    /** The target as the caller sees it. */
    ghost function Contents(): Target
      reads this, nodes
    {
      Target(width, height, align, heuristic == BEST_FIT, num_nodes,
             if Within(active, 0, nodes.Length) then SkyOf(nodes[..], active) else [], |free|, placed)
    }

    ghost predicate Valid()
      reads this, nodes
    {
      && init_mode == INIT_SKYLINE && (heuristic == BOTTOM_LEFT || heuristic == BEST_FIT)
      && Holds(nodes[..], active_head, active, free_head, free, Contents())
      && Good(Contents())
    }

    constructor (nodes: array<SNode>)
      ensures this.nodes == nodes
    {
      this.nodes := nodes;
    }

    /** `stbrp_setup_heuristic` */
    method SetupHeuristic(h: int)
      requires Valid() && (h == 0 || h == 1)
      modifies this`heuristic
      ensures Valid() && Contents() == old(Contents()).(bestFit := h == 1)
    {
      hide Holds, Good, SkyOf, Within, AlignFor;
      GoodSizes(Contents());
      RetuneKeeps(nodes[..], active_head, active, free_head, free, Contents(), align, h == BEST_FIT);
      heuristic := h;
    }

    /** `stbrp_setup_allow_out_of_mem` */
    method SetupAllowOutOfMem(allow_out_of_mem: bool)
      requires Valid()
      modifies this`align
      ensures Valid()
      ensures Contents() == old(Contents()).(align := if allow_out_of_mem then 1 else AlignFor(width, num_nodes))
    {
      hide Holds, Good, SkyOf, Within, AlignFor;
      GoodSizes(Contents());
      var a := if allow_out_of_mem then 1 else AlignFor(width, num_nodes);
      RetuneKeeps(nodes[..], active_head, active, free_head, free, Contents(), a, heuristic == BEST_FIT);
      align := a;
    }

    /** The first loop of `stbrp_init_target`: the caller's nodes, linked in order. */
    method LinkFree(n: nat)
      requires 0 < n <= nodes.Length
      modifies nodes
      ensures nodes[n - 1].next == NULL && forall k :: 0 <= k < n - 1 ==> nodes[k].next == k + 1
    {
      for i := 0 to n - 1
        invariant forall k :: 0 <= k < i ==> nodes[k].next == k + 1
      {
        nodes[i] := nodes[i].(next := i + 1);
      }
      nodes[n - 1] := nodes[n - 1].(next := NULL);
    }

    /** The end of `stbrp_init_target`: node 0 is the full width, node 1 the sentinel. */
    method LinkExtra(n: nat, width: int)
      requires 0 < n && nodes.Length == n + 2
      modifies nodes
      ensures nodes[n] == SNode(0, 0, n + 1) && nodes[n + 1] == SNode(width, SENTINEL, NULL)
      ensures forall k :: 0 <= k < n ==> nodes[k] == old(nodes[k])
    {
      nodes[n] := SNode(0, 0, n + 1);
      nodes[n + 1] := SNode(width, SENTINEL, NULL);
    }

    /** `stbrp_init_target` */
    method InitTarget(width: int, height: int, num_nodes: int)
      requires 0 < width < 0x4000_0000 && 0 < height < 0x4000_0000 && 0 < num_nodes
      requires nodes.Length == num_nodes + 2
      modifies this, nodes
      ensures Valid() && nodes == old(nodes) && Fresh(Contents())
      ensures Contents() == Initial(width, height, num_nodes) && init_mode == 1
    {
      hide Good, Holds, AlignFor, Fresh, SkyOf, Upto, Within;
      LinkFree(num_nodes);
      LinkExtra(num_nodes, width);
      InitialHolds(nodes[..], width, height, num_nodes);
      SetFields(width, height, num_nodes);
    }

    /** The fields of a fresh target over a pool already linked. */
    method SetFields(width: int, height: int, num_nodes: int)
      requires 0 < width && 0 < num_nodes && nodes.Length == num_nodes + 2
      requires Within([num_nodes, num_nodes + 1], 0, nodes.Length)
      requires Holds(nodes[..], num_nodes, [num_nodes, num_nodes + 1], 0, Upto(0, num_nodes),
                     Initial(width, height, num_nodes))
      requires SkyOf(nodes[..], [num_nodes, num_nodes + 1]) == Initial(width, height, num_nodes).sky
      requires Good(Initial(width, height, num_nodes))
      modifies this
      ensures nodes == old(nodes) && Valid() && Contents() == Initial(width, height, num_nodes)
    {
      hide Good, Holds, AlignFor, SkyOf, Upto, Within, Initial;
      InitialFields(width, height, num_nodes);
      init_mode, heuristic := INIT_SKYLINE, BOTTOM_LEFT;
      free_head, active_head := 0, num_nodes;
      this.width, this.height, this.num_nodes, align := width, height, num_nodes, AlignFor(width, num_nodes);
      active, free, placed := [num_nodes, num_nodes + 1], Upto(0, num_nodes), [];
    }

    // ------------------------------------------------------------ searching

    /** Node `k` of the active list. */
    lemma NodeFacts(k: nat)
      requires Valid() && k < |active|
      ensures |Contents().sky| == |active| && ValidSky(Contents().sky) && End(Contents().sky) == width
      ensures 0 <= active[k] < nodes.Length
      ensures nodes[active[k]] == SNode(Contents().sky[k].x, Contents().sky[k].y,
                                        if k + 1 < |active| then active[k + 1] else NULL)
    {
      PathLink(nodes[..], active_head, active, NULL, k);
    }

    /** The body of the loop of `find_min_y`. */
    method VisitNode(node: int, x0: int, w: int, min_y0: int, visited_width0: int, waste0: int)
      returns (min_y: int, visited_width: int, waste: int)
      requires 0 <= node < nodes.Length && 0 <= nodes[node].next < nodes.Length
      ensures Scan(min_y, visited_width, waste) ==
              ScanNode(nodes[node].x, nodes[node].y, nodes[nodes[node].next].x, x0, w,
                       Scan(min_y0, visited_width0, waste0))
    {
      min_y, visited_width, waste := min_y0, visited_width0, waste0;
      var next := nodes[node].next;
      if nodes[node].y > min_y {
        waste := waste + visited_width * (nodes[node].y - min_y);
        min_y := nodes[node].y;
        if nodes[node].x < x0 {
          visited_width := visited_width + (nodes[next].x - x0);
        } else {
          visited_width := visited_width + (nodes[next].x - nodes[node].x);
        }
      } else {
        var under_width := nodes[next].x - nodes[node].x;
        if under_width + visited_width > w {
          under_width := w - visited_width;
        }
        waste := waste + under_width * (min_y - nodes[node].y);
        visited_width := visited_width + under_width;
      }
    }

    /** `stbrp__skyline_find_min_y` */
    method FindMinY(first: int, x0: int, w: int, ghost k0: nat) returns (min_y: int, waste: int)
      requires Valid() && k0 < |active| && first == active[k0]
      requires 0 <= x0 && 0 < w && x0 + w <= width && k0 == IndexAt(Contents().sky, x0)
      ensures min_y == TopAt(Contents().sky, w, x0) && waste == Waste(Contents().sky, x0, w)
    {
      hide Holds, Good, TopAt, ScanNode, ScanFrom, SkyOf, Increasing;
      ghost var s := Contents().sky;
      ghost var k := k0;
      var node, x1 := first, x0 + w;
      var visited_width := 0;
      min_y, waste := 0, 0;
      NodeFacts(k);
      while nodes[node].x < x1
        invariant k < |active| && node == active[k]
        invariant 0 <= node < nodes.Length && nodes[node].x == s[k].x
        invariant ScanFrom(s, k0, x0, w, Scan(0, 0, 0)) == ScanFrom(s, k, x0, w, Scan(min_y, visited_width, waste))
        decreases |active| - k
      {
        NodeFacts(k);
        NodeFacts(k + 1);
        ScanFromNext(s, k, x0, w, Scan(min_y, visited_width, waste));
        min_y, visited_width, waste := VisitNode(node, x0, w, min_y, visited_width, waste);
        node := nodes[node].next;
        k := k + 1;
      }
      ScanFromEnd(s, k, x0, w, Scan(min_y, visited_width, waste));
      ScanTop(s, x0, w);
    }

    /** The first loop of `find_best_pos`: left ends at nodes. */
    method SearchLeft(w: int, h: int) returns (best: Link, best_y: int, best_waste: int, ghost x: int, ghost k: nat)
      requires Valid() && 0 < w <= width && 0 < h
      ensures Searched(Contents(), active, w, h, k, 0, x, best, best_y, best_waste)
      ensures k < |active| && Contents().sky[k].x + w > width && AtNode(Contents().sky, x)
    {
      hide Holds, Good, TopAt, Waste, SkyOf, Increasing, Searched, AtNode;
      ghost var t := Contents();
      best_waste, best_y := SENTINEL, SENTINEL;
      best := NoLink;
      x, k := -1, 0;
      var node, prev := active_head, HeadLink;
      ActiveHead();
      NodeFacts(k);
      NothingSearched(t, active, w, h);
      while nodes[node].x + w <= width
        invariant k < |active| == |t.sky| && node == active[k] && prev == LinkOf(active, k)
        invariant 0 <= node < nodes.Length && nodes[node].x == t.sky[k].x
        invariant Searched(t, active, w, h, k, 0, x, best, best_y, best_waste) && x < t.sky[k].x
        invariant AtNode(t.sky, x)
        decreases |active| - k
      {
        NodeFacts(k);
        NodeFacts(k + 1);
        Before(t.sky, k);
        best, best_y, best_waste, x := TryLeft(w, h, node, prev, best, best_y, best_waste, k, x);
        prev := NextLink(node);
        node := nodes[node].next;
        k := k + 1;
      }
    }

    /** One turn of that loop, with the candidate at `node`. */
    method TryLeft(w: int, h: int, node: int, prev: Link, best0: Link, best_y0: int, best_waste0: int,
                   ghost k: nat, ghost x0: int)
      returns (best: Link, best_y: int, best_waste: int, ghost x: int)
      requires Valid() && |Contents().sky| == |active| && k < |active| && node == active[k] && prev == LinkOf(active, k)
      requires 0 <= node < nodes.Length && nodes[node].x == Contents().sky[k].x && nodes[node].x + w <= width
      requires Searched(Contents(), active, w, h, k, 0, x0, best0, best_y0, best_waste0)
      requires x0 < nodes[node].x && AtNode(Contents().sky, x0)
      ensures Searched(Contents(), active, w, h, k + 1, 0, x, best, best_y, best_waste)
      ensures x <= nodes[node].x && AtNode(Contents().sky, x)
    {
      hide Holds, Good, TopAt, Waste, SkyOf, Increasing, Searched, LinkOf, Within, IndexAt;
      ghost var t := Contents();
      best, best_y, best_waste, x := best0, best_y0, best_waste0, x0;
      NodeFacts(k);
      SearchedWidth(t, active, w, h, k, 0, x, best, best_y, best_waste);
      NodeAt(t, w, k);
      var y, waste := FindMinY(node, nodes[node].x, w, k);
      LookLeft(t, active, w, h, k, x, best, best_y, best_waste);
      if heuristic == BOTTOM_LEFT {
        if y < best_y {
          best_y, best, x := y, prev, nodes[node].x;
        }
      } else {
        if y + h <= height {
          if y < best_y || (y == best_y && waste < best_waste) {
            best_y, best_waste, best, x := y, waste, prev, nodes[node].x;
          }
        }
      }
    }

    /** The loop of `find_best_pos` that looks for the first node with room on its left. */
    method FirstTail(w: int, h: int, ghost k: nat, ghost x: int, ghost best: Link, ghost best_y: int,
                     ghost best_waste: int)
      returns (tail: int, ghost m: nat)
      requires Valid() && Searched(Contents(), active, w, h, k, 0, x, best, best_y, best_waste)
      ensures m < |active| && tail == active[m] && w <= Contents().sky[m].x
      ensures Searched(Contents(), active, w, h, k, m, x, best, best_y, best_waste)
    {
      hide Holds, Good, SkyOf, Increasing, Searched;
      ghost var t := Contents();
      tail, m := active_head, 0;
      ActiveHead();
      NodeFacts(0);
      SearchedWidth(t, active, w, h, k, m, x, best, best_y, best_waste);
      while nodes[tail].x < w
        invariant m < |active| == |t.sky| && tail == active[m]
        invariant 0 <= tail < nodes.Length && nodes[tail].x == t.sky[m].x
        invariant Searched(t, active, w, h, k, m, x, best, best_y, best_waste)
        decreases |active| - m
      {
        NodeFacts(m);
        NodeFacts(m + 1);
        PassRight(t, active, w, h, k, m, x, best, best_y, best_waste);
        tail := nodes[tail].next;
        m := m + 1;
      }
    }

    /** The second loop of `find_best_pos`: right ends at nodes. */
    method SearchRight(w: int, h: int, best0: Link, best_x0: int, best_y0: int, best_waste0: int,
                       ghost k: nat, ghost x0: int)
      returns (best: Link, best_x: int, best_y: int, best_waste: int, ghost x: int)
      requires Valid() && heuristic == BEST_FIT
      requires Searched(Contents(), active, w, h, k, 0, x0, best0, best_y0, best_waste0)
      requires best_x0 == if x0 == -1 then 0 else x0
      ensures Searched(Contents(), active, w, h, k, |active|, x, best, best_y, best_waste)
      ensures best_x == if x == -1 then 0 else x
    {
      hide Holds, Good, TopAt, Waste, SkyOf, Increasing, Searched;
      ghost var t := Contents();
      best, best_x, best_y, best_waste, x := best0, best_x0, best_y0, best_waste0, x0;
      var tail; ghost var m: nat;
      tail, m := FirstTail(w, h, k, x, best, best_y, best_waste);
      SearchedWidth(t, active, w, h, k, m, x, best, best_y, best_waste);
      var node, prev := active_head, HeadLink;
      ghost var n: nat := 0;
      ActiveHead();
      NodeFacts(0);
      NodeFacts(m);
      while tail != NULL
        invariant m <= |active| == |t.sky| && tail == (if m < |active| then active[m] else NULL)
        invariant n < |active| && node == active[n] && prev == LinkOf(active, n)
        invariant m < |active| ==> w <= t.sky[m].x && t.sky[n].x <= t.sky[m].x - w && 0 <= tail < nodes.Length
        invariant Searched(t, active, w, h, k, m, x, best, best_y, best_waste)
        invariant best_x == if x == -1 then 0 else x
        decreases |active| - m
      {
        NodeFacts(m);
        Before(t.sky, m);
        var xpos := nodes[tail].x - w;
        node, prev, n := AdvanceNode(xpos, node, prev, n);
        best, best_x, best_y, best_waste, x :=
          TryRight(w, h, node, prev, xpos, best, best_x, best_y, best_waste, k, m, n, x);
        if m + 1 < |active| {
          NodeFacts(m + 1);
        }
        tail := nodes[tail].next;
        m := m + 1;
      }
    }

    /** One turn of that loop, with the candidate at `xpos`. */
    method TryRight(w: int, h: int, node: int, prev: Link, xpos: int, best0: Link, best_x0: int, best_y0: int,
                    best_waste0: int, ghost k: nat, ghost m: nat, ghost n: nat, ghost x0: int)
      returns (best: Link, best_x: int, best_y: int, best_waste: int, ghost x: int)
      requires Valid() && heuristic == BEST_FIT && |Contents().sky| == |active|
      requires m < |active| && w <= Contents().sky[m].x && xpos == Contents().sky[m].x - w
      requires n + 1 < |active| && node == active[n] && prev == LinkOf(active, n)
      requires Contents().sky[n].x <= xpos < Contents().sky[n + 1].x
      requires Searched(Contents(), active, w, h, k, m, x0, best0, best_y0, best_waste0)
      requires best_x0 == if x0 == -1 then 0 else x0
      ensures Searched(Contents(), active, w, h, k, m + 1, x, best, best_y, best_waste)
      ensures best_x == if x == -1 then 0 else x
    {
      hide Holds, Good, TopAt, Waste, SkyOf, Increasing, Searched, LinkOf, Within, ValidSky, IndexAt;
      ghost var t := Contents();
      best, best_x, best_y, best_waste, x := best0, best_x0, best_y0, best_waste0, x0;
      SearchedWidth(t, active, w, h, k, m, x, best, best_y, best_waste);
      RightAt(t, w, m, n, xpos);
      var y, waste := FindMinY(node, xpos, w, n);
      LookRight(t, active, w, h, k, m, n, x, best, best_y, best_waste);
      if y + h <= height {
        if y <= best_y {
          if y < best_y || waste < best_waste || (waste == best_waste && xpos < best_x) {
            best_x, best_y, best_waste, best, x := xpos, y, waste, prev, xpos;
          }
        }
      }
    }

    /** The inner loop of the second search: the node whose segment holds `xpos`. */
    method AdvanceNode(xpos: int, node0: int, prev0: Link, ghost n0: nat) returns (node: int, prev: Link, ghost n: nat)
      requires Valid() && n0 < |active| && node0 == active[n0] && prev0 == LinkOf(active, n0)
      requires |Contents().sky| == |active| && Contents().sky[n0].x <= xpos < width
      ensures n + 1 < |active| && node == active[n] && prev == LinkOf(active, n)
      ensures Contents().sky[n].x <= xpos < Contents().sky[n + 1].x
    {
      hide Holds, Good, SkyOf, Increasing;
      ghost var s := Contents().sky;
      node, prev, n := node0, prev0, n0;
      NodeFacts(n);
      NodeFacts(n + 1);
      while nodes[nodes[node].next].x <= xpos
        invariant n + 1 < |active| == |s| && node == active[n] && prev == LinkOf(active, n) && s[n].x <= xpos
        invariant 0 <= node < nodes.Length && nodes[node].next == active[n + 1]
        invariant 0 <= active[n + 1] < nodes.Length && nodes[active[n + 1]].x == s[n + 1].x
        decreases |active| - n
      {
        prev := NextLink(node);
        node := nodes[node].next;
        n := n + 1;
        NodeFacts(n);
        NodeFacts(n + 1);
      }
    }

    /** The two searches of `find_best_pos`, for a rounded width that fits the target. */
    method Search(w: int, h: int) returns (fr: FindResult)
      requires Valid() && 0 < w <= width && 0 < h
      ensures Found(Contents(), active, w, h, fr)
    {
      hide Holds, Good, TopAt, SkyOf, Increasing, Searched, Found;
      ghost var t := Contents();
      ghost var x: int, k: nat, m: nat;
      var best, best_y, best_waste;
      best, best_y, best_waste, x, k := SearchLeft(w, h);
      NodeFacts(k);
      SearchedNode(t, active, w, h, k, 0, x, best, best_y, best_waste);
      var best_x := 0;
      m := 0;
      if best != NoLink {
        var i := Deref(best, IndexAt(t.sky, x));
        best_x := nodes[i].x;
      }
      if heuristic == BEST_FIT {
        best, best_x, best_y, best_waste, x := SearchRight(w, h, best, best_x, best_y, best_waste, k, x);
        m := |active|;
      }
      fr := FindResult(best_x, best_y, best);
      SearchEnds(t, active, w, h, k, m, x, fr, best_waste);
    }

    /** `stbrp__skyline_find_best_pos` */
    method FindBestPos(width0: int, h: int) returns (fr: FindResult)
      requires Valid() && 0 < width0 && 0 < h
      ensures var w := Rounded(width0, align);
              if w > width || h > height then fr.prev_link == NoLink else Found(Contents(), active, w, h, fr)
    {
      hide Holds, Good, SkyOf, Found;
      GoodSizes(Contents());
      var w := width0 + align - 1;
      w := w - w % align;
      assert w == Rounded(width0, align);
      if w > width || h > height {
        return FindResult(0, 0, NoLink);
      }
      fr := Search(w, h);
    }

    /** Following a link. */
    method Deref(link: Link, ghost k: nat) returns (i: int)
      requires Valid() && k < |active| && link == LinkOf(active, k)
      ensures i == active[k] && |Contents().sky| == |active|
      ensures 0 <= i < nodes.Length && nodes[i].x == Contents().sky[k].x
    {
      hide Holds, Good, SkyOf, Increasing;
      NodeFacts(k);
      ActiveHead();
      match link
      case HeadLink => i := active_head;
      case NextLink(node) =>
        NodeFacts(k - 1);
        i := nodes[node].next;
    }

    lemma ActiveHead()
      requires Valid()
      ensures |active| > 0 && active_head == active[0]
    {
    }

    // ------------------------------------------------------------ placing

    /** The first part of the insertion: the new node takes its place in the active list. */
    method LinkIn(link: Link, x: int, node: int, ghost a: seq<int>, ghost f: seq<int>, ghost s: seq<Seg>, ghost i: nat)
      returns (cur: int, ghost k: nat)
      requires f != [] && node == f[0] && 0 <= node < nodes.Length && nodes[node].x == x
      requires List(nodes[..], active_head, a) && List(nodes[..], free_head, f[1..]) && Keeps(nodes[..], a, s)
      requires IsPermutation(a + f, nodes.Length) && |s| == |a|
      requires i + 1 < |a| && link == LinkOf(a, i)
      modifies this`active_head, nodes
      ensures Middle(nodes[..], active_head, a, f, k, k, free_head, f[1..], s)
      ensures k == Kept(s, i, x) && cur == a[k]
      ensures nodes[node].x == old(nodes[node].x) && nodes[node].y == old(nodes[node].y)
    {
      hide IsPermutation, SkyOf;
      k := Kept(s, i, x);
      Apart(a, f, nodes.Length);
      PathLink(nodes[..], active_head, a, NULL, i);
      if i > 0 { PathLink(nodes[..], active_head, a, NULL, i - 1); }
      KeptAt(nodes[..], a, s, i);
      assert a[i] in a && node in f;
      cur := match link case HeadLink => active_head case NextLink(n) => nodes[n].next;
      if nodes[cur].x < x {
        LinkBehind(nodes[..], active_head, a, f, i + 1, free_head, s);
        var next := nodes[cur].next;
        nodes[cur] := nodes[cur].(next := node);
        cur := next;
      } else {
        match link
        case HeadLink =>
          LinkAtHead(nodes[..], active_head, a, f, free_head, s);
          active_head := node;
        case NextLink(n) =>
          LinkBehind(nodes[..], active_head, a, f, i, free_head, s);
          assert a[i - 1] in a;
          nodes[n] := nodes[n].(next := node);
      }
    }

    /** The freeing loop: active nodes whose successor starts no further than `limit` go to the free list. */
    method FreePassed(cur0: int, limit: int, ghost a: seq<int>, ghost f: seq<int>, ghost s: seq<Seg>, ghost k: nat)
      returns (cur: int, ghost j: nat, ghost fl: seq<int>)
      requires f != [] && Middle(nodes[..], active_head, a, f, k, k, free_head, f[1..], s) && cur0 == a[k]
      modifies this`free_head, nodes
      ensures Middle(nodes[..], active_head, a, f, k, j, free_head, fl, s)
      ensures j == SkipTo(s, k, limit) && cur == a[j]
      ensures 0 <= f[0] < nodes.Length && nodes[f[0]].x == old(nodes[f[0]].x) && nodes[f[0]].y == old(nodes[f[0]].y)
    {
      hide IsPermutation, SkyOf, Middle, NodeLists.Path;
      cur, j, fl := cur0, k, f[1..];
      MiddleFacts(nodes[..], active_head, a, f, k, j, free_head, fl, s);
      while nodes[cur].next != NULL && nodes[nodes[cur].next].x <= limit
        invariant k <= j < |a| == |s| && cur == a[j] && 0 <= cur < nodes.Length && cur != f[0]
        invariant j + 1 < |a| ==> 0 <= a[j + 1] < nodes.Length && nodes[a[j + 1]].x == s[j + 1].x
        invariant nodes[cur].next == if j + 1 < |a| then a[j + 1] else NULL
        invariant Middle(nodes[..], active_head, a, f, k, j, free_head, fl, s)
        invariant SkipTo(s, k, limit) == SkipTo(s, j, limit)
        invariant nodes[f[0]].x == old(nodes[f[0]].x) && nodes[f[0]].y == old(nodes[f[0]].y)
        decreases |a| - j
      {
        FreeOne(nodes[..], active_head, a, f, k, j, free_head, fl, s);
        var next := nodes[cur].next;
        nodes[cur] := nodes[cur].(next := free_head);
        free_head := cur;
        fl := [cur] + fl;
        cur := next;
        j := j + 1;
        MiddleFacts(nodes[..], active_head, a, f, k, j, free_head, fl, s);
      }
    }

    /** The free node that is used, with its new position. */
    method TakeNode(x: int, y: int, ghost s: seq<Seg>) returns (node: int)
      requires Lists(nodes[..], active_head, active, free_head, free, s) && free_head != NULL
      modifies this`free_head, nodes
      ensures free != [] && node == free[0] && 0 <= node < nodes.Length
      ensures nodes[node].x == x && nodes[node].y == y
      ensures List(nodes[..], active_head, active) && List(nodes[..], free_head, free[1..])
      ensures Keeps(nodes[..], active, s) && IsPermutation(active + free, nodes.Length) && |s| == |active|
    {
      hide IsPermutation, SkyOf, NodeLists.Path;
      FreeHead(nodes[..], free_head, free);
      TakeFree(nodes[..], active_head, active, free_head, free, s, x, y);
      node := free_head;
      nodes[node] := SNode(x, y, nodes[node].next);
      free_head := nodes[node].next;
    }

    /** Stitching the list back in. */
    method StitchIn(node: int, cur: int, limit: int, ghost a: seq<int>, ghost f: seq<int>, ghost fl: seq<int>,
                    ghost s: seq<Seg>, ghost k: nat, ghost j: nat)
      requires Middle(nodes[..], active_head, a, f, k, j, free_head, fl, s)
      requires node == f[0] && cur == a[j] && 0 <= node < nodes.Length
      modifies this`active, this`free, nodes
      ensures k <= j < |s|
      ensures Lists(nodes[..], active_head, active, free_head, free,
                    s[..k] + [Seg(old(nodes[node].x), old(nodes[node].y)), Seg(Max(s[j].x, limit), s[j].y)] +
                    s[j + 1..])
    {
      hide IsPermutation, SkyOf, NodeLists.Path, Lists, Keeps;
      Stitch(nodes[..], active_head, a, f, k, j, free_head, fl, s, limit);
      ghost var before := nodes[..];
      nodes[node] := nodes[node].(next := cur);
      if nodes[cur].x < limit {
        nodes[cur] := nodes[cur].(x := limit);
      }
      assert nodes[..] == Stitched(before, node, cur, limit);
      active, free := a[..k] + [f[0]] + a[j..], fl;
    }

    /** The insertion of `pack_rectangle` on the lists alone: node `i` is where the link points. */
    method Relink(link: Link, x: int, w: int, top: int, ghost s: seq<Seg>, ghost i: nat)
      requires Lists(nodes[..], active_head, active, free_head, free, s) && free_head != NULL
      requires i + 1 < |active| && link == LinkOf(active, i)
      modifies this`active_head, this`free_head, this`active, this`free, nodes
      ensures |s| == old(|active|) && Lists(nodes[..], active_head, active, free_head, free, Insert(s, i, x, w, top))
    {
      hide IsPermutation, SkyOf, Middle, NodeLists.Path, Kept, SkipTo, Lists, Keeps, List;
      ghost var a, f := active, free;
      var node := TakeNode(x, top, s);
      var cur; ghost var k: nat, j: nat, fl: seq<int>;
      cur, k := LinkIn(link, x, node, a, f, s, i);
      cur, j, fl := FreePassed(cur, x + w, a, f, s, k);
      StitchIn(node, cur, x + w, a, f, fl, s, k, j);
    }

    /** The successful half of `pack_rectangle`. */
    method Place(fr: FindResult, w: int, h: int)
      requires Valid() && 0 < w && 0 < h && Chosen(Contents(), w, h, fr.x) && free_head != NULL
      requires fr.y == TopAt(Contents().sky, Rounded(w, align), fr.x)
      requires fr.prev_link == LinkOf(active, IndexAt(Contents().sky, fr.x)) && |Contents().sky| == |active|
      modifies this, nodes
      ensures Valid() && nodes == old(nodes) && Contents() == After(old(Contents()), w, h, fr.x)
    {
      hide Good, Chosen, Lists, SkyOf, TopAt, Insert, Increasing;
      ghost var t := Contents();
      ChosenPlaces(t, w, h, fr.x);
      Relink(fr.prev_link, fr.x, w, fr.y + h, t.sky, IndexAt(t.sky, fr.x));
      placed := placed + [Placed(fr.x, fr.y, w, h)];
      ListsCount(nodes[..], active_head, active, free_head, free,
                 Insert(t.sky, IndexAt(t.sky, fr.x), fr.x, w, fr.y + h));
      StepKeepsGood(t, w, h, After(t, w, h, fr.x), Some((fr.x, fr.y)));
    }

    /** `stbrp__skyline_pack_rectangle` */
    method PackRectangle(w: int, h: int) returns (fr: FindResult)
      requires Valid() && 0 < w && 0 < h
      modifies this, nodes
      ensures Valid() && nodes == old(nodes)
      ensures PackStep(old(Contents()), w, h, Contents(), if fr.prev_link == NoLink then None else Some((fr.x, fr.y)))
    {
      hide Good, Holds, Chosen, Found, TopAt;
      GoodSizes(Contents());
      ghost var t := Contents();
      fr := FindBestPos(w, h);
      NoFreeNode();
      if fr.prev_link == NoLink || fr.y + h > height || free_head == NULL {
        TurnedAway(t, active, w, h, fr);
        return fr.(prev_link := NoLink);
      }
      LetThrough(t, active, w, h, fr);
      Place(fr, w, h);
    }

    lemma NoFreeNode()
      requires Valid()
      ensures free_head == NULL <==> Contents().free == 0
    {
    }
  }

  lemma ListsCount(nodes: seq<SNode>, head: int, a: seq<int>, free_head: int, f: seq<int>, s: seq<Seg>)
    requires Lists(nodes, head, a, free_head, f, s)
    ensures |a| == |s| && |a| + |f| == |nodes| && Within(a, 0, |nodes|) && SkyOf(nodes, a) == s
  {
  }

  lemma KeptAt(nodes: seq<SNode>, a: seq<int>, s: seq<Seg>, i: nat)
    requires Keeps(nodes, a, s) && i < |a|
    ensures |s| == |a| && 0 <= a[i] < |nodes| && s[i] == Seg(nodes[a[i]].x, nodes[a[i]].y)
  {
  }

  lemma MiddleFacts(nodes: seq<SNode>, head: int, a: seq<int>, f: seq<int>, k: nat, j: nat,
                    free_head: int, fl: seq<int>, s: seq<Seg>)
    requires Middle(nodes, head, a, f, k, j, free_head, fl, s)
    ensures f != [] && k <= j < |a| == |s| && 0 <= a[j] < |nodes| && 0 <= f[0] < |nodes| && a[j] != f[0]
    ensures j + 1 < |a| ==> 0 <= a[j + 1] < |nodes| && nodes[a[j + 1]].x == s[j + 1].x
    ensures nodes[a[j]].next == if j + 1 < |a| then a[j + 1] else NULL
  {
    hide IsPermutation, SkyOf;
    Apart(a, f, |nodes|);
    assert a[j] in a && f[0] in f;
    KeptAt(nodes, a, s, j);
    if j + 1 < |a| { KeptAt(nodes, a, s, j + 1); }
    PathLink(nodes, a[j], a[j..], NULL, 0);
  }

  lemma FreeHead(nodes: seq<SNode>, free_head: int, f: seq<int>)
    requires List(nodes, free_head, f) && free_head != NULL
    ensures f != [] && free_head == f[0] && 0 <= free_head < |nodes|
  {
  }

  /** The three reasons to bail out are the ways no position can be chosen. */
  lemma TurnedAway(t: Target, active: seq<int>, w: int, h: int, fr: FindResult)
    requires Good(t) && 0 < w && 0 < h
    requires var r := Rounded(w, t.align);
             if r > t.width || h > t.height then fr.prev_link == NoLink else Found(t, active, r, h, fr)
    requires fr.prev_link == NoLink || fr.y + h > t.height || t.free == 0
    ensures forall x :: !Chosen(t, w, h, x)
  {
    hide TopAt, Ranks, Waste;
    var r := Rounded(w, t.align);
    if r <= t.width && h <= t.height && 0 < t.free {
      forall x ensures !Chosen(t, w, h, x) {
        if IsBest(t.sky, r, h, t.height, t.bestFit, x) {
          if fr.prev_link != NoLink {
            BestUnique(t.sky, r, h, t.height, t.bestFit, x, fr.x);
          }
        }
      }
    }
  }

  lemma LetThrough(t: Target, active: seq<int>, w: int, h: int, fr: FindResult)
    requires Good(t) && 0 < w && 0 < h
    requires var r := Rounded(w, t.align);
             if r > t.width || h > t.height then fr.prev_link == NoLink else Found(t, active, r, h, fr)
    requires fr.prev_link != NoLink && fr.y + h <= t.height && t.free != 0
    ensures Chosen(t, w, h, fr.x) && |active| == |t.sky| && fr.prev_link == LinkOf(active, IndexAt(t.sky, fr.x))
    ensures fr.y == TopAt(t.sky, Rounded(w, t.align), fr.x)
  {
    hide TopAt, Ranks, Waste;
    BestInside(t.sky, Rounded(w, t.align), h, t.height, t.bestFit, fr.x);
  }

  /** The link that points to node `i` of the active list. */
  ghost function LinkOf(active: seq<int>, i: int): Link
    requires 0 <= i <= |active|
  {
    if i == 0 then HeadLink else NextLink(active[i - 1])
  }

  /** The best left end so far, if any, is a node's. */
  ghost predicate AtNode(s: seq<Seg>, x: int)
    requires ValidSky(s)
  {
    x == -1 || (0 <= x < End(s) && s[IndexAt(s, x)].x == x)
  }

  /** The variables of the search after the first `k` left ends and `m` right ends: `x` is the best
      candidate among them and the variables describe it. */
  ghost predicate Searched(t: Target, active: seq<int>, w: int, h: int, k: nat, m: nat, x: int,
                           best: Link, best_y: int, best_waste: int) {
    && Good(t) && 0 < w <= t.width && 0 < h && |active| == |t.sky| && k <= |t.sky| && m <= |t.sky|
    && BestOf(t.sky, w, h, t.height, t.bestFit, k, m, x)
    && if x == -1 then best == NoLink && best_y == SENTINEL && best_waste == SENTINEL
       else
         && best == LinkOf(active, IndexAt(t.sky, x)) && best_y == TopAt(t.sky, w, x)
         && (t.bestFit ==> best_waste == Waste(t.sky, x, w))
  }

  lemma NothingSearched(t: Target, active: seq<int>, w: int, h: int)
    requires Good(t) && 0 < w <= t.width && 0 < h && |active| == |t.sky|
    ensures Searched(t, active, w, h, 0, 0, -1, NoLink, SENTINEL, SENTINEL) && AtNode(t.sky, -1)
  {
  }

  /** Node `k` leaves room for the width: it is a candidate, and it is found at its own column. */
  lemma NodeAt(t: Target, w: int, k: nat)
    requires Good(t) && 0 < w && k < |t.sky| && t.sky[k].x + w <= t.width
    ensures 0 <= t.sky[k].x && k == IndexAt(t.sky, t.sky[k].x) && k + 1 < |t.sky|
    ensures t.sky[k].x < t.sky[k + 1].x
    ensures TopAt(t.sky, w, t.sky[k].x) <= t.height < SENTINEL
    ensures Candidate(t.sky, w, t.bestFit, t.sky[k].x)
  {
    hide TopAt;
    Before(t.sky, k);
    IndexUnique(t.sky, t.sky[k].x, k);
    LowTop(t.sky, w, t.sky[k].x, t.height);
  }

  /** The comparison of the first loop decides for the better of the two candidates. */
  lemma LookLeft(t: Target, active: seq<int>, w: int, h: int, k: nat, x: int,
                 best: Link, best_y: int, best_waste: int)
    requires Searched(t, active, w, h, k, 0, x, best, best_y, best_waste) && k < |t.sky|
    requires t.sky[k].x + w <= t.width && x < t.sky[k].x && 0 <= t.sky[k].x
    ensures var c := t.sky[k].x;
            var y, waste := TopAt(t.sky, w, c), Waste(t.sky, c, w);
            if (if t.bestFit then y + h <= t.height && (y < best_y || (y == best_y && waste < best_waste))
                else y < best_y)
            then Searched(t, active, w, h, k + 1, 0, c, LinkOf(active, k), y, if t.bestFit then waste else best_waste)
            else Searched(t, active, w, h, k + 1, 0, x, best, best_y, best_waste)
  {
    hide TopAt, Waste, BestOf, Tried, Increasing;
    NodeAt(t, w, k);
    LeftTried(t.sky, w, t.bestFit, k, 0);
    BestOfAdmissible(t.sky, w, h, t.height, t.bestFit, k, 0, x);
    BestWithOneMore(t.sky, w, h, t.height, t.bestFit, k, 0, k + 1, 0, x, t.sky[k].x);
  }

  lemma SearchedWidth(t: Target, active: seq<int>, w: int, h: int, k: nat, m: nat, x: int,
                      best: Link, best_y: int, best_waste: int)
    requires Searched(t, active, w, h, k, m, x, best, best_y, best_waste)
    ensures 0 < w <= t.width && |active| == |t.sky|
  {
  }

  /** A right end with no room on its left is no candidate. */
  lemma PassRight(t: Target, active: seq<int>, w: int, h: int, k: nat, m: nat, x: int,
                  best: Link, best_y: int, best_waste: int)
    requires Searched(t, active, w, h, k, m, x, best, best_y, best_waste) && m < |t.sky| && t.sky[m].x < w
    ensures Searched(t, active, w, h, k, m + 1, x, best, best_y, best_waste) && m + 1 < |t.sky|
  {
    hide TopAt, Waste, BestOf, Tried, Increasing;
    BestOfAdmissible(t.sky, w, h, t.height, t.bestFit, k, m, x);
    TriedRight(t.sky, w, t.bestFit, k, m);
    BestWithOneMore(t.sky, w, h, t.height, t.bestFit, k, m, k, m + 1, x, t.sky[m].x - w);
  }

  lemma TriedRight(s: seq<Seg>, w: int, bestFit: bool, k: nat, m: nat)
    requires k <= |s| && m < |s|
    ensures forall d :: Tried(s, w, bestFit, k, m + 1, d) ==> d == s[m].x - w || Tried(s, w, bestFit, k, m, d)
  {
    if bestFit {
      RightTried(s, w, k, m);
    }
  }

  /** Node `m` is the right end of a candidate whose left end is in the segment of node `n`. */
  lemma RightAt(t: Target, w: int, m: nat, n: nat, xpos: int)
    requires Good(t) && 0 < w && m < |t.sky| && xpos == t.sky[m].x - w && 0 <= xpos
    requires n + 1 < |t.sky| && t.sky[n].x <= xpos < t.sky[n + 1].x
    ensures xpos + w <= t.width && xpos < t.width && n == IndexAt(t.sky, xpos)
    ensures TopAt(t.sky, w, xpos) <= t.height < SENTINEL
    ensures t.bestFit ==> Candidate(t.sky, w, t.bestFit, xpos)
  {
    hide TopAt;
    Before(t.sky, m);
    IndexUnique(t.sky, xpos, n);
    LowTop(t.sky, w, xpos, t.height);
  }

  lemma LookRight(t: Target, active: seq<int>, w: int, h: int, k: nat, m: nat, n: nat, x: int,
                  best: Link, best_y: int, best_waste: int)
    requires Searched(t, active, w, h, k, m, x, best, best_y, best_waste) && m < |t.sky| && t.bestFit
    requires w <= t.sky[m].x && n + 1 < |t.sky| && t.sky[n].x <= t.sky[m].x - w < t.sky[n + 1].x
    requires t.sky[m].x <= t.width && t.sky[m].x - w < t.width
    ensures var c := t.sky[m].x - w; var best_x := if x == -1 then 0 else x;
            var y, waste := TopAt(t.sky, w, c), Waste(t.sky, c, w);
            if y + h <= t.height && y <= best_y &&
               (y < best_y || waste < best_waste || (waste == best_waste && c < best_x))
            then Searched(t, active, w, h, k, m + 1, c, LinkOf(active, n), y, waste)
            else Searched(t, active, w, h, k, m + 1, x, best, best_y, best_waste)
  {
    hide TopAt, Waste, BestOf, Tried, Increasing;
    var c := t.sky[m].x - w;
    RightAt(t, w, m, n, c);
    TriedRight(t.sky, w, t.bestFit, k, m);
    BestOfAdmissible(t.sky, w, h, t.height, t.bestFit, k, m, x);
    BestWithOneMore(t.sky, w, h, t.height, t.bestFit, k, m, k, m + 1, x, c);
  }

  /** What a search reports: no link when no candidate is admissible, otherwise the best one, the
      height under it and the link to the node that holds its left end. */
  ghost predicate Found(t: Target, active: seq<int>, w: int, h: int, fr: FindResult)
    requires Good(t) && 0 < w
  {
    if fr.prev_link == NoLink then forall c :: !Admissible(t.sky, w, h, t.height, t.bestFit, c)
    else
      && |active| == |t.sky| && IsBest(t.sky, w, h, t.height, t.bestFit, fr.x)
      && fr.y == TopAt(t.sky, w, fr.x) && fr.prev_link == LinkOf(active, IndexAt(t.sky, fr.x))
  }

  lemma SearchedNode(t: Target, active: seq<int>, w: int, h: int, k: nat, m: nat, x: int,
                     best: Link, best_y: int, best_waste: int)
    requires Searched(t, active, w, h, k, m, x, best, best_y, best_waste)
    ensures best == NoLink <==> x == -1
    ensures x != -1 ==> && 0 <= x < t.width && ValidSky(t.sky) && End(t.sky) == t.width
                        && best == LinkOf(active, IndexAt(t.sky, x))
  {
  }

  lemma SearchEnds(t: Target, active: seq<int>, w: int, h: int, k: nat, m: nat, x: int,
                   fr: FindResult, best_waste: int)
    requires Searched(t, active, w, h, k, m, x, fr.prev_link, fr.y, best_waste)
    requires k < |t.sky| && t.sky[k].x + w > t.width && (t.bestFit ==> m == |t.sky|)
    requires fr.x == if x == -1 then 0 else x
    ensures Good(t) && 0 < w && Found(t, active, w, h, fr)
  {
    hide TopAt, Waste, BestOf, Increasing, IsBest, Admissible;
    SearchComplete(t.sky, w, h, t.height, t.bestFit, k, m, x);
    if x != -1 { BestInside(t.sky, w, h, t.height, t.bestFit, x); }
  }

  lemma BestInside(s: seq<Seg>, w: int, h: int, height: int, bestFit: bool, x: int)
    requires ValidSky(s) && 0 < w && IsBest(s, w, h, height, bestFit, x)
    ensures 0 <= x && x + w <= End(s)
  {
  }

  lemma BestOfAdmissible(s: seq<Seg>, w: int, h: int, height: int, bestFit: bool, k: nat, m: nat, x: int)
    requires ValidSky(s) && 0 < w && k <= |s| && m <= |s| && BestOf(s, w, h, height, bestFit, k, m, x)
    ensures x == -1 || Admissible(s, w, h, height, bestFit, x)
  {
  }

  /** The height the scan ends with. */
  lemma ScanTop(s: seq<Seg>, x0: int, w: int)
    requires ValidSky(s) && 0 <= x0 && 0 < w && x0 + w <= End(s)
    ensures ScanFrom(s, IndexAt(s, x0), x0, w, Scan(0, 0, 0)).minY == TopAt(s, w, x0)
  {
    ScanFromHeight(s, IndexAt(s, x0), x0, w, Scan(0, 0, 0));
  }

  lemma InitialFields(width: int, height: int, num_nodes: int)
    requires 0 < width && 0 < num_nodes
    ensures Initial(width, height, num_nodes) ==
            Target(width, height, AlignFor(width, num_nodes), false, num_nodes,
                   Initial(width, height, num_nodes).sky, |Upto(0, num_nodes)|, [])
  {
  }

  ghost function Initial(width: int, height: int, num_nodes: int): Target
    requires 0 < width && 0 < num_nodes
  {
    Target(width, height, AlignFor(width, num_nodes), false, num_nodes,
           [Seg(0, 0), Seg(width, SENTINEL)], num_nodes, [])
  }

  lemma GoodSizes(t: Target)
    requires Good(t)
    ensures 0 < t.width && 0 < t.height && 0 < t.numNodes && 0 < t.align
  {
  }

  lemma RetuneKeeps(nodes: seq<SNode>, active_head: int, active: seq<int>, free_head: int, free: seq<int>, t: Target,
                    align: int, bestFit: bool)
    requires Holds(nodes, active_head, active, free_head, free, t) && Good(t) && 0 < align
    ensures Good(t.(align := align, bestFit := bestFit))
    ensures Holds(nodes, active_head, active, free_head, free, t.(align := align, bestFit := bestFit))
  {
  }

  lemma InitialHolds(nodes: seq<SNode>, width: int, height: int, n: int)
    requires 0 < width < SENTINEL && 0 < height < SENTINEL && 0 < n && |nodes| == n + 2
    requires nodes[n - 1].next == NULL && forall k :: 0 <= k < n - 1 ==> nodes[k].next == k + 1
    requires nodes[n] == SNode(0, 0, n + 1) && nodes[n + 1] == SNode(width, SENTINEL, NULL)
    ensures var t := Initial(width, height, n);
            && Fresh(t) && Good(t) && Holds(nodes, n, [n, n + 1], 0, Upto(0, n), t)
            && Within([n, n + 1], 0, n + 2) && SkyOf(nodes, [n, n + 1]) == t.sky
  {
    hide Good;
    var t := Initial(width, height, n);
    FreshGood(t);
    ChainPath(nodes, 0, n);
    ChainPath(nodes, n, n + 2);
    assert Upto(n, n + 2) == [n, n + 1];
    assert t.sky == SkyOf(nodes, [n, n + 1]);
  }
}
