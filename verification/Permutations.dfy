/** Index permutations and the pigeonhole principle behind them. */
module Permutations {
  ghost predicate Injective(p: seq<int>) {
    forall i, j :: 0 <= i < j < |p| ==> p[i] != p[j]
  }

  ghost predicate Within(p: seq<int>, lo: int, hi: int) {
    forall i :: 0 <= i < |p| ==> lo <= p[i] < hi
  }

  ghost predicate IsPermutation(p: seq<int>, n: nat) {
    |p| == n && Within(p, 0, n) && Injective(p)
  }

  lemma {:induction false} Pigeonhole(p: seq<int>, lo: int, hi: int)
    requires lo <= hi && Within(p, lo, hi) && Injective(p)
    ensures |p| <= hi - lo
    decreases hi - lo
  {
    if p != [] {
      assert lo <= p[0] < hi;
      if i :| 0 <= i < |p| && p[i] == hi - 1 {
        var q := p[..i] + p[i + 1..];
        assert forall k :: 0 <= k < |q| ==> q[k] == if k < i then p[k] else p[k + 1];
        Pigeonhole(q, lo, hi - 1);
      } else {
        Pigeonhole(p, lo, hi - 1);
      }
    }
  }

  lemma Surjective(p: seq<int>, n: nat, v: int)
    requires IsPermutation(p, n) && 0 <= v < n
    ensures exists i :: 0 <= i < n && p[i] == v
  {
    if forall i :: 0 <= i < n ==> p[i] != v {
      Pigeonhole(p + [v], 0, n);
    }
  }

  ghost function IndexOf(p: seq<int>, n: nat, v: int): (i: nat)
    requires IsPermutation(p, n) && 0 <= v < n
    ensures i < n && p[i] == v
  {
    Surjective(p, n, v);
    var i :| 0 <= i < n && p[i] == v;
    i
  }

  /** The elements of `s` at the positions `p`. */
  ghost function Gather<T>(s: seq<T>, p: seq<int>): (r: seq<T>)
    requires Within(p, 0, |s|)
    ensures |r| == |p|
    ensures forall i :: 0 <= i < |p| ==> r[i] == s[p[i]]
  {
    seq(|p|, i requires 0 <= i < |p| => s[p[i]])
  }

  ghost function Without<T>(s: seq<T>, i: nat): (r: seq<T>)
    requires i < |s|
    ensures |r| == |s| - 1
    ensures forall k :: 0 <= k < |r| ==> r[k] == s[if k < i then k else k + 1]
    ensures multiset(s) == multiset(r) + multiset{s[i]}
  {
    assert s == s[..i] + [s[i]] + s[i + 1..];
    s[..i] + s[i + 1..]
  }

  lemma WithoutLast(p: seq<int>, n: nat, i: nat)
    requires IsPermutation(p, n + 1) && i <= n && p[i] == n
    ensures IsPermutation(Without(p, i), n)
  {
    var q := Without(p, i);
    forall k | 0 <= k < n ensures 0 <= q[k] < n {
      assert q[k] == p[if k < i then k else k + 1] != p[i];
    }
    forall j, k | 0 <= j < k < n ensures q[j] != q[k] {
      assert q[j] == p[if j < i then j else j + 1] && q[k] == p[if k < i then k else k + 1];
    }
  }

  /** Gathering along a permutation rearranges. */
  lemma {:induction false} GatherRearranges<T>(s: seq<T>, p: seq<int>)
    requires IsPermutation(p, |s|)
    ensures multiset(Gather(s, p)) == multiset(s)
  {
    hide Gather, Injective, Without;
    if s != [] {
      var n := |s| - 1;
      var i := IndexOf(p, n + 1, n);
      WithoutLast(p, n, i);
      var front, q := s[..n], Without(p, i);
      GatherRearranges(front, q);
      assert Gather(front, q) == Without(Gather(s, p), i);
      assert s == front + [s[n]];
    } else {
      assert p == [];
    }
  }

  /** Inserting the next index anywhere extends a permutation. */
  lemma InsertPermutes(p: seq<int>, n: nat, at: nat)
    requires IsPermutation(p, n) && at <= n
    ensures IsPermutation(p[..at] + [n] + p[at..], n + 1)
  {
    var q := p[..at] + [n] + p[at..];
    assert forall i :: 0 <= i < |q| ==> q[i] == if i < at then p[i] else if i == at then n else p[i - 1];
  }

  ghost function Inserted(p: seq<int>, n: nat, at: nat): (r: seq<int>)
    requires IsPermutation(p, n) && at <= n
    ensures IsPermutation(r, n + 1)
  {
    InsertPermutes(p, n, at);
    p[..at] + [n] + p[at..]
  }

  /** A strictly increasing listing of [0, n) is the identity. */
  lemma SortedIsIdentity(p: seq<int>, n: nat, i: nat)
    requires |p| == n && Within(p, 0, n)
    requires forall j, k :: 0 <= j < k < n ==> p[j] <= p[k]
    requires Injective(p)
    requires i < n
    ensures p[i] == i
  {
    assert forall j, k :: 0 <= j < k < n ==> p[j] < p[k];
    Pigeonhole(p[..i + 1], 0, p[i] + 1);
    Pigeonhole(p[i..], p[i], n);
  }

  lemma {:induction false} InjectiveCounts(p: seq<int>, v: int)
    requires Injective(p)
    ensures multiset(p)[v] <= 1
  {
    if p != [] {
      var n := |p| - 1;
      assert p == p[..n] + [p[n]];
      InjectiveCounts(p[..n], v);
      assert p[n] !in p[..n];
    }
  }

  /** Rearranging a permutation gives a permutation. */
  lemma RearrangedPermutation(p: seq<int>, q: seq<int>, n: nat)
    requires IsPermutation(p, n) && multiset(p) == multiset(q)
    ensures IsPermutation(q, n)
  {
    assert |multiset(q)| == |q| && |multiset(p)| == |p|;
    forall i | 0 <= i < |q| ensures 0 <= q[i] < n {
      assert q[i] in multiset(q);
      assert q[i] in p;
    }
    forall i, j | 0 <= i < j < |q| ensures q[i] != q[j] {
      InjectiveCounts(p, q[i]);
      assert q == q[..j] + [q[j]] + q[j + 1..];
      assert q[i] in q[..j];
      assert multiset(q)[q[i]] >= multiset(q[..j])[q[i]] + multiset([q[j]])[q[i]];
    }
  }
}
