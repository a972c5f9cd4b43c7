/** The packer's node pool: two linked lists through one array, a pointer being an index. */
module NodeLists {
  import opened Permutations
  import opened Skyline

  /** A null pointer. */
  const NULL := -1

  datatype SNode = SNode(x: int, y: int, next: int)

  /** Following `next` from `head` visits exactly `list` and then arrives at `end`. */
  ghost predicate Path(nodes: seq<SNode>, head: int, list: seq<int>, end: int)
    decreases |list|
  {
    if list == [] then head == end
    else head == list[0] && 0 <= head < |nodes| && Path(nodes, nodes[head].next, list[1..], end)
  }

  ghost predicate List(nodes: seq<SNode>, head: int, list: seq<int>) {
    Path(nodes, head, list, NULL)
  }

  lemma {:induction false} PathWithin(nodes: seq<SNode>, head: int, list: seq<int>, end: int)
    requires Path(nodes, head, list, end)
    ensures Within(list, 0, |nodes|)
    decreases |list|
  {
    if list != [] {
      PathWithin(nodes, nodes[head].next, list[1..], end);
      assert forall i :: 1 <= i < |list| ==> list[i] == list[1..][i - 1];
    }
  }

  lemma {:induction false} PathLink(nodes: seq<SNode>, head: int, list: seq<int>, end: int, k: nat)
    requires Path(nodes, head, list, end) && k < |list|
    ensures 0 <= list[k] < |nodes| && nodes[list[k]].next == if k + 1 < |list| then list[k + 1] else end
    decreases |list|
  {
    if k > 0 {
      PathLink(nodes, nodes[head].next, list[1..], end, k - 1);
    }
  }

  /** Cutting a path in two. */
  lemma {:induction false} PathCut(nodes: seq<SNode>, head: int, list: seq<int>, end: int, k: nat)
    requires Path(nodes, head, list, end) && k <= |list|
    ensures var mid := if k < |list| then list[k] else end;
            Path(nodes, head, list[..k], mid) && Path(nodes, mid, list[k..], end)
    decreases |list|
  {
    if k > 0 {
      PathCut(nodes, nodes[head].next, list[1..], end, k - 1);
      assert list[1..][..k - 1] == list[..k][1..] && list[1..][k - 1..] == list[k..];
    } else {
      assert list[..0] == [] && list[0..] == list;
    }
  }

  lemma {:induction false} PathJoin(nodes: seq<SNode>, head: int, a: seq<int>, mid: int, b: seq<int>, end: int)
    requires Path(nodes, head, a, mid) && Path(nodes, mid, b, end)
    ensures Path(nodes, head, a + b, end)
    decreases |a|
  {
    if a == [] {
      assert a + b == b;
    } else {
      PathJoin(nodes, nodes[head].next, a[1..], mid, b, end);
      assert (a + b)[1..] == a[1..] + b;
    }
  }

  /** Only the links of its own nodes matter to a path. */
  lemma {:induction false} PathFrame(nodes: seq<SNode>, nodes': seq<SNode>, head: int, list: seq<int>, end: int)
    requires Path(nodes, head, list, end) && |nodes'| == |nodes|
    requires forall i :: 0 <= i < |list| && 0 <= list[i] < |nodes| ==> nodes'[list[i]].next == nodes[list[i]].next
    ensures Path(nodes', head, list, end)
    decreases |list|
  {
    if list != [] {
      assert nodes'[list[0]].next == nodes[list[0]].next;
      assert forall i :: 0 <= i < |list| - 1 ==> list[1..][i] == list[i + 1];
      PathFrame(nodes, nodes', nodes[head].next, list[1..], end);
    }
  }

  /** Rewriting a node that is not on a path. */
  lemma PathElsewhere(nodes: seq<SNode>, head: int, list: seq<int>, end: int, at: int, node: SNode)
    requires Path(nodes, head, list, end) && 0 <= at < |nodes| && at !in list
    ensures Path(nodes[at := node], head, list, end)
  {
    PathFrame(nodes, nodes[at := node], head, list, end);
  }

  /** Redirecting the last link of a path. */
  lemma PathRedirect(nodes: seq<SNode>, head: int, list: seq<int>, end: int, end': int)
    requires Path(nodes, head, list, end) && list != [] && Injective(list)
    requires 0 <= list[|list| - 1] < |nodes|
    ensures var last := list[|list| - 1];
            Path(nodes[last := nodes[last].(next := end')], head, list, end')
  {
    hide Within;
    var n := |list| - 1;
    var last := list[n];
    var nodes' := nodes[last := nodes[last].(next := end')];
    PathCut(nodes, head, list, end, n);
    PathWithin(nodes, head, list, end);
    PathFrame(nodes, nodes', head, list[..n], last);
    assert list[n..] == [last] && list == list[..n] + [last];
    assert Path(nodes', end', [], end');
    assert [last][1..] == [];
    assert Path(nodes', last, [last], end');
    PathJoin(nodes', head, list[..n], last, [last], end');
  }

  /** The skyline that the active list spells. */
  ghost function SkyOf(nodes: seq<SNode>, list: seq<int>): (s: seq<Seg>)
    requires Within(list, 0, |nodes|)
    ensures |s| == |list|
    ensures forall i :: 0 <= i < |list| ==> s[i] == Seg(nodes[list[i]].x, nodes[list[i]].y)
  {
    seq(|list|, i requires 0 <= i < |list| => Seg(nodes[list[i]].x, nodes[list[i]].y))
  }
}
