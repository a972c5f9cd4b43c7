/** What `pack_rectangle` does to the two lists: one free node is linked into the active list and the
    active nodes it covers are moved to the free list. */
module Relinking {
  import opened Bytes
  import opened Permutations
  import opened Skyline
  import opened NodeLists

  /** Between two turns of the freeing loop: the first `k` active nodes lead to the new `node`, the
      nodes from `j` on still hang together, those between have joined the free list. */
  ghost predicate Middle(nodes: seq<SNode>, head: int, a: seq<int>, f: seq<int>, k: nat, j: nat,
                         free_head: int, fl: seq<int>, s: seq<Seg>) {
    && f != [] && IsPermutation(a + f, |nodes|) && |s| == |a| && k <= j < |a|
    && Path(nodes, head, a[..k], f[0]) && Path(nodes, a[j], a[j..], NULL) && List(nodes, free_head, fl)
    && multiset(fl) == multiset(a[k..j]) + multiset(f[1..])
    && Keeps(nodes, a, s)
  }

  /** The active nodes still have the columns and heights of `s`. */
  ghost predicate Keeps(nodes: seq<SNode>, a: seq<int>, s: seq<Seg>) {
    Within(a, 0, |nodes|) && SkyOf(nodes, a) == s
  }

  /** Active and free nodes are all different. */
  lemma Apart(a: seq<int>, f: seq<int>, n: nat)
    requires IsPermutation(a + f, n)
    ensures Within(a, 0, n) && Within(f, 0, n) && Injective(a) && Injective(f)
    ensures forall x :: x in a ==> x !in f
  {
    var p := a + f;
    assert forall i :: 0 <= i < |a| ==> p[i] == a[i];
    assert forall i :: 0 <= i < |f| ==> p[|a| + i] == f[i];
    forall i, j | 0 <= i < |a| && 0 <= j < |f| ensures a[i] != f[j] {
      assert p[i] != p[|a| + j];
    }
  }

  lemma SkyKept(nodes: seq<SNode>, nodes': seq<SNode>, a: seq<int>, s: seq<Seg>)
    requires Keeps(nodes, a, s) && |nodes'| == |nodes|
    requires forall i :: 0 <= i < |a| ==> nodes'[a[i]].x == nodes[a[i]].x && nodes'[a[i]].y == nodes[a[i]].y
    ensures Keeps(nodes', a, s)
  {
    assert SkyOf(nodes', a) == SkyOf(nodes, a);
  }

  /** The node about to be freed is on no other part of the lists. */
  lemma NodeApart(a: seq<int>, f: seq<int>, k: nat, j: nat, fl: seq<int>, n: nat)
    requires f != [] && IsPermutation(a + f, n) && k <= j < |a|
    requires multiset(fl) == multiset(a[k..j]) + multiset(f[1..])
    ensures a[j] !in a[..j] && a[j] !in a[j + 1..] && a[j] !in f && a[j] !in fl
    ensures f[0] !in a && f[0] !in fl
  {
    Apart(a, f, n);
    assert a[j] in a && f[0] in f;
    assert f[0] !in f[1..] && a[j] !in a[..j] && a[j] !in a[j + 1..];
    forall x | x in fl ensures (x in a[..j] && x in a) || (x in f[1..] && x in f) {
      assert x in multiset(fl);
      assert x in a[k..j] || x in f[1..];
    }
  }

  /** One turn of the freeing loop. */
  lemma FreeOne(nodes: seq<SNode>, head: int, a: seq<int>, f: seq<int>, k: nat, j: nat,
                free_head: int, fl: seq<int>, s: seq<Seg>)
    requires Middle(nodes, head, a, f, k, j, free_head, fl, s) && j + 1 < |a|
    ensures 0 <= a[j] < |nodes| && nodes[a[j]].next == a[j + 1]
    ensures var nodes' := nodes[a[j] := nodes[a[j]].(next := free_head)];
            Middle(nodes', head, a, f, k, j + 1, a[j], [a[j]] + fl, s)
  {
    hide IsPermutation, SkyOf, Injective;
    var cur := a[j];
    NodeApart(a, f, k, j, fl, |nodes|);
    PathLink(nodes, a[j], a[j..], NULL, 0);
    var node := nodes[cur].(next := free_head);
    var nodes' := nodes[cur := node];
    assert a[..k] == a[..j][..k];
    PathElsewhere(nodes, head, a[..k], f[0], cur, node);
    assert a[j..][1..] == a[j + 1..];
    PathElsewhere(nodes, a[j + 1], a[j + 1..], NULL, cur, node);
    PathElsewhere(nodes, free_head, fl, NULL, cur, node);
    assert ([cur] + fl)[1..] == fl;
    assert Path(nodes', cur, [cur] + fl, NULL);
    assert a[k..j + 1] == a[k..j] + [cur];
    SkyKept(nodes, nodes', a, s);
  }

  /** Before anything is changed: both lists, made of all nodes. */
  ghost predicate Lists(nodes: seq<SNode>, head: int, a: seq<int>, free_head: int, f: seq<int>, s: seq<Seg>) {
    && List(nodes, head, a) && List(nodes, free_head, f)
    && IsPermutation(a + f, |nodes|) && |s| == |a| && Keeps(nodes, a, s)
  }

  /** Taking the first free node and writing the new position into it. */
  lemma TakeFree(nodes: seq<SNode>, head: int, a: seq<int>, free_head: int, f: seq<int>, s: seq<Seg>,
                 x: int, y: int)
    requires Lists(nodes, head, a, free_head, f, s) && f != []
    ensures 0 <= f[0] < |nodes| && free_head == f[0]
    ensures var nodes' := nodes[f[0] := SNode(x, y, nodes[f[0]].next)];
            List(nodes', head, a) && List(nodes', nodes[f[0]].next, f[1..]) && Keeps(nodes', a, s)
  {
    hide IsPermutation, SkyOf;
    Apart(a, f, |nodes|);
    assert f[0] in f && f[0] !in a && f[0] !in f[1..];
    var node := SNode(x, y, nodes[f[0]].next);
    PathElsewhere(nodes, head, a, NULL, f[0], node);
    PathElsewhere(nodes, nodes[f[0]].next, f[1..], NULL, f[0], node);
    SkyKept(nodes, nodes[f[0] := node], a, s);
  }

  /** Linking the new node in at the head of the active list. */
  lemma LinkAtHead(nodes: seq<SNode>, head: int, a: seq<int>, f: seq<int>, free_head: int, s: seq<Seg>)
    requires f != [] && List(nodes, head, a) && List(nodes, free_head, f[1..]) && Keeps(nodes, a, s)
    requires a != [] && IsPermutation(a + f, |nodes|) && |s| == |a|
    ensures Middle(nodes, f[0], a, f, 0, 0, free_head, f[1..], s)
  {
    assert a[..0] == [] && a[0..] == a && a[0..0] == [];
    assert Path(nodes, f[0], [], f[0]);
  }

  /** Linking the new node in behind active node `p - 1`. */
  lemma LinkBehind(nodes: seq<SNode>, head: int, a: seq<int>, f: seq<int>, p: nat, free_head: int, s: seq<Seg>)
    requires f != [] && List(nodes, head, a) && List(nodes, free_head, f[1..]) && Keeps(nodes, a, s)
    requires 0 < p < |a| && IsPermutation(a + f, |nodes|) && |s| == |a|
    ensures 0 <= a[p - 1] < |nodes|
    ensures Middle(nodes[a[p - 1] := nodes[a[p - 1]].(next := f[0])], head, a, f, p, p, free_head, f[1..], s)
  {
    hide IsPermutation, SkyOf;
    var last := a[p - 1];
    Apart(a, f, |nodes|);
    PathCut(nodes, head, a, NULL, p);
    assert a[..p][p - 1] == last;
    PathRedirect(nodes, head, a[..p], a[p], f[0]);
    var node := nodes[last].(next := f[0]);
    assert last in a && last !in a[p..] && last !in f[1..];
    PathElsewhere(nodes, a[p], a[p..], NULL, last, node);
    PathElsewhere(nodes, free_head, f[1..], NULL, last, node);
    SkyKept(nodes, nodes[last := node], a, s);
    assert a[p..p] == [];
  }

  /** The nodes after the loop: the new node points to the first node not freed, and that one is cut
      back to column `limit`. */
  ghost function Stitched(nodes: seq<SNode>, node: int, cur: int, limit: int): seq<SNode>
    requires 0 <= node < |nodes| && 0 <= cur < |nodes|
  {
    var linked := nodes[node := nodes[node].(next := cur)];
    if linked[cur].x < limit then linked[cur := linked[cur].(x := limit)] else linked
  }

  lemma MiddleKeeps(nodes: seq<SNode>, head: int, a: seq<int>, f: seq<int>, k: nat, j: nat, free_head: int,
                    fl: seq<int>, s: seq<Seg>)
    requires Middle(nodes, head, a, f, k, j, free_head, fl, s)
    ensures Within(a, 0, |nodes|) && |s| == |a| && Keeps(nodes, a, s)
  {
  }

  lemma StitchedPaths(nodes: seq<SNode>, head: int, a: seq<int>, f: seq<int>, k: nat, j: nat, free_head: int,
                      fl: seq<int>, limit: int)
    requires f != [] && k <= j < |a| && 0 <= f[0] < |nodes| && 0 <= a[j] < |nodes|
    requires Path(nodes, head, a[..k], f[0]) && Path(nodes, a[j], a[j..], NULL) && List(nodes, free_head, fl)
    requires f[0] !in a && f[0] !in fl
    ensures var nodes' := Stitched(nodes, f[0], a[j], limit);
            List(nodes', head, a[..k] + [f[0]] + a[j..]) && List(nodes', free_head, fl)
  {
    var node, cur := f[0], a[j];
    var nodes' := Stitched(nodes, node, cur, limit);
    assert cur in a;
    PathFrame(nodes, nodes', head, a[..k], node);
    PathFrame(nodes, nodes', cur, a[j..], NULL);
    PathFrame(nodes, nodes', free_head, fl, NULL);
    assert [node][1..] == [];
    assert Path(nodes', cur, [], cur);
    assert Path(nodes', node, [node], cur);
    PathJoin(nodes', head, a[..k], node, [node], cur);
    PathJoin(nodes', head, a[..k] + [node], cur, a[j..], NULL);
  }

  /** Afterwards both lists are again made of all nodes, and the active list spells the new skyline. */
  lemma Stitch(nodes: seq<SNode>, head: int, a: seq<int>, f: seq<int>, k: nat, j: nat,
               free_head: int, fl: seq<int>, s: seq<Seg>, limit: int)
    requires Middle(nodes, head, a, f, k, j, free_head, fl, s)
    ensures 0 <= f[0] < |nodes| && 0 <= a[j] < |nodes| && f[0] != a[j]
    ensures var nodes' := Stitched(nodes, f[0], a[j], limit);
            var active := a[..k] + [f[0]] + a[j..];
            Lists(nodes', head, active, free_head, fl,
                  s[..k] + [Seg(nodes[f[0]].x, nodes[f[0]].y), Seg(Max(s[j].x, limit), s[j].y)] + s[j + 1..])
  {
    hide IsPermutation, SkyOf, NodeLists.Path, Keeps;
    MiddleKeeps(nodes, head, a, f, k, j, free_head, fl, s);
    var node, cur := f[0], a[j];
    NodeApart(a, f, k, j, fl, |nodes|);
    Apart(a, f, |nodes|);
    assert node in f && cur in a;
    StitchedPaths(nodes, head, a, f, k, j, free_head, fl, limit);
    StitchedPermutes(a, f, k, j, fl, |nodes|);
    StitchedSky(nodes, a, f, k, j, s, limit);
  }

  lemma StitchedPermutes(a: seq<int>, f: seq<int>, k: nat, j: nat, fl: seq<int>, n: nat)
    requires f != [] && IsPermutation(a + f, n) && k <= j < |a|
    requires multiset(fl) == multiset(a[k..j]) + multiset(f[1..])
    ensures IsPermutation(a[..k] + [f[0]] + a[j..] + fl, n)
  {
    hide IsPermutation;
    assert a == a[..k] + a[k..j] + a[j..] && f == [f[0]] + f[1..];
    Regrouped(a[..k], a[k..j], a[j..], f[0], f[1..], fl);
    RearrangedPermutation(a + f, a[..k] + [f[0]] + a[j..] + fl, n);
  }

  lemma Regrouped(front: seq<int>, passed: seq<int>, back: seq<int>, node: int, rest: seq<int>, fl: seq<int>)
    requires multiset(fl) == multiset(passed) + multiset(rest)
    ensures multiset((front + passed + back) + ([node] + rest)) == multiset(front + [node] + back + fl)
  {
  }

  lemma StitchedSky(nodes: seq<SNode>, a: seq<int>, f: seq<int>, k: nat, j: nat, s: seq<Seg>, limit: int)
    requires f != [] && IsPermutation(a + f, |nodes|) && k <= j < |a| && Keeps(nodes, a, s)
    ensures 0 <= f[0] < |nodes| && 0 <= a[j] < |nodes|
    ensures var nodes' := Stitched(nodes, f[0], a[j], limit);
            Keeps(nodes', a[..k] + [f[0]] + a[j..],
                  s[..k] + [Seg(nodes[f[0]].x, nodes[f[0]].y), Seg(Max(s[j].x, limit), s[j].y)] + s[j + 1..])
  {
    hide IsPermutation;
    Apart(a, f, |nodes|);
    var nodes' := Stitched(nodes, f[0], a[j], limit);
    var active := a[..k] + [f[0]] + a[j..];
    var sky := s[..k] + [Seg(nodes[f[0]].x, nodes[f[0]].y), Seg(Max(s[j].x, limit), s[j].y)] + s[j + 1..];
    assert f[0] in f && a[j] in a;
    forall i | 0 <= i < |active|
      ensures 0 <= active[i] < |nodes| && sky[i] == Seg(nodes'[active[i]].x, nodes'[active[i]].y)
    {
      if i < k {
        assert active[i] == a[i] && a[i] in a && a[i] != a[j];
      } else if i > k {
        assert active[i] == a[i - k - 1 + j] && a[i - k - 1 + j] in a;
        assert i > k + 1 ==> a[i - k - 1 + j] != a[j] && sky[i] == s[i - k - 1 + j];
      }
    }
    assert SkyOf(nodes', active) == sky;
  }
}
