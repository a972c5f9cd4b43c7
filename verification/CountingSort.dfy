/** `bwt_inverse`: the counting sort that turns the last column of the Burrows-Wheeler
    matrix into the permutation the decoders follow. */
module CountingSort {
  import opened Bytes
  import opened Permutations

  // ---------------------------------------------------------------- counting

  ghost function CountLess(s: seq<byte>, b: int): (c: nat)
    ensures c <= |s|
  {
    if s == [] then 0 else CountLess(s[..|s| - 1], b) + (if s[|s| - 1] < b then 1 else 0)
  }

  ghost function CountEqual(s: seq<byte>, b: int): (c: nat)
    ensures c <= |s|
  {
    if s == [] then 0 else CountEqual(s[..|s| - 1], b) + (if s[|s| - 1] == b then 1 else 0)
  }

  lemma {:induction false} CountBelowNext(s: seq<byte>, b: int)
    ensures CountLess(s, b + 1) == CountLess(s, b) + CountEqual(s, b)
  {
    if s != [] {
      CountBelowNext(s[..|s| - 1], b);
    }
  }

  lemma {:induction false} CountLessMonotone(s: seq<byte>, a: int, b: int)
    requires a <= b
    ensures CountLess(s, a) <= CountLess(s, b)
  {
    if s != [] {
      CountLessMonotone(s[..|s| - 1], a, b);
    }
  }

  lemma {:induction false} NoneBelowZero(s: seq<byte>)
    ensures CountLess(s, 0) == 0
  {
    if s != [] {
      NoneBelowZero(s[..|s| - 1]);
    }
  }

  lemma {:induction false} CountEqualPrefix(s: seq<byte>, i: nat, k: nat, b: int)
    requires i <= k <= |s|
    ensures CountEqual(s[..i], b) <= CountEqual(s[..k], b)
    ensures i < k && s[i] == b ==> CountEqual(s[..i], b) < CountEqual(s[..k], b)
    decreases k
  {
    if i < k {
      assert s[..k][..k - 1] == s[..k - 1];
      CountEqualPrefix(s, i, k - 1, b);
    }
  }

  /** Where the counting sort puts position `i`. */
  ghost function Rank(s: seq<byte>, i: nat): nat
    requires i < |s|
  {
    CountLess(s, s[i]) + CountEqual(s[..i], s[i])
  }

  /** The order of a stable sort of positions by their byte. */
  ghost predicate Before(s: seq<byte>, i: int, k: int)
    requires 0 <= i < |s| && 0 <= k < |s|
  {
    s[i] < s[k] || (s[i] == s[k] && i < k)
  }

  lemma {:induction false} RankBelow(s: seq<byte>, i: nat)
    requires i < |s|
    ensures Rank(s, i) < CountLess(s, (s[i] as int) + 1) <= |s|
  {
    CountEqualPrefix(s, i, |s|, s[i]);
    assert s[..|s|] == s;
    CountBelowNext(s, s[i]);
  }

  lemma RankOrders(s: seq<byte>, i: nat, k: nat)
    requires i < |s| && k < |s| && Before(s, i, k)
    ensures Rank(s, i) < Rank(s, k)
  {
    if s[i] < s[k] {
      RankBelow(s, i);
      CountLessMonotone(s, (s[i] as int) + 1, s[k]);
    } else {
      CountEqualPrefix(s, i, k, s[i]);
    }
  }

  /** `t` lists the positions of `s` in the order of a stable sort. */
  ghost predicate StableSort(s: seq<byte>, t: seq<int>) {
    |t| == |s| && Within(t, 0, |s|) &&
    forall j, k :: 0 <= j < k < |t| ==> Before(s, t[j], t[k])
  }

  lemma StableSortPermutes(s: seq<byte>, t: seq<int>)
    requires StableSort(s, t)
    ensures IsPermutation(t, |s|)
  {
    forall j, k | 0 <= j < k < |t| ensures t[j] != t[k] {
      assert Before(s, t[j], t[k]);
    }
  }

  lemma RanksGiveStableSort(s: seq<byte>, t: seq<int>)
    requires |t| == |s|
    requires forall i :: 0 <= i < |s| ==> Rank(s, i) < |s| && t[Rank(s, i)] == i
    ensures StableSort(s, t)
  {
    var n := |s|;
    var ranks := Ranks(s);
    forall j | 0 <= j < n ensures 0 <= t[j] < n && Rank(s, t[j]) == j {
      Surjective(ranks, n, j);
      var i :| 0 <= i < n && ranks[i] == j;
    }
    forall j, k | 0 <= j < k < n ensures Before(s, t[j], t[k]) {
      if !Before(s, t[j], t[k]) {
        if t[j] != t[k] { RankOrders(s, t[k], t[j]); }
        assert false;
      }
    }
  }

  /** There is only one stable sort. */
  lemma StableSortUnique(s: seq<byte>, t: seq<int>, u: seq<int>)
    requires StableSort(s, t) && StableSort(s, u)
    ensures t == u
  {
    forall j | 0 <= j < |s| ensures t[j] == u[j] {
      StableSortAt(s, t, j);
      StableSortAt(s, u, j);
      if Rank(s, t[j]) == Rank(s, u[j]) && t[j] != u[j] {
        if Before(s, t[j], u[j]) { RankOrders(s, t[j], u[j]); } else { RankOrders(s, u[j], t[j]); }
      }
    }
  }

  /** Slot `j` of a stable sort holds the position of rank `j`. */
  lemma StableSortAt(s: seq<byte>, t: seq<int>, j: nat)
    requires StableSort(s, t) && j < |s|
    ensures Rank(s, t[j]) == j
  {
    var ranks := seq(|s|, i requires 0 <= i < |s| => Rank(s, t[i]));
    forall i, k | 0 <= i < k < |s| ensures ranks[i] < ranks[k] {
      RankOrders(s, t[i], t[k]);
    }
    forall i | 0 <= i < |s| ensures 0 <= ranks[i] < |s| {
      RankBelow(s, t[i]);
    }
    SortedIsIdentity(ranks, |s|, j);
  }

  /** The stable sort exists: position of rank `j` in slot `j`. */
  ghost function SortPositions(s: seq<byte>): (t: seq<int>)
    ensures StableSort(s, t)
  {
    var ranks := Ranks(s);
    var t := seq(|s|, j requires 0 <= j < |s| => IndexOf(ranks, |s|, j));
    SortPositionsInvert(s, t);
    t
  }

  ghost function Ranks(s: seq<byte>): (ranks: seq<int>)
    ensures IsPermutation(ranks, |s|)
    ensures forall i :: 0 <= i < |s| ==> ranks[i] == Rank(s, i)
  {
    RanksPermute(s);
    seq(|s|, i requires 0 <= i < |s| => Rank(s, i))
  }

  lemma RanksPermute(s: seq<byte>)
    ensures forall i :: 0 <= i < |s| ==> Rank(s, i) < |s|
    ensures forall i, k :: 0 <= i < k < |s| ==> Rank(s, i) != Rank(s, k)
  {
    forall i | 0 <= i < |s| ensures Rank(s, i) < |s| {
      RankBelow(s, i);
    }
    forall i, k | 0 <= i < k < |s| ensures Rank(s, i) != Rank(s, k) {
      if Before(s, i, k) { RankOrders(s, i, k); } else { RankOrders(s, k, i); }
    }
  }

  lemma SortPositionsInvert(s: seq<byte>, t: seq<int>)
    requires |t| == |s|
    requires forall j :: 0 <= j < |s| ==> t[j] == IndexOf(Ranks(s), |s|, j)
    ensures StableSort(s, t)
  {
    var ranks := Ranks(s);
    forall i | 0 <= i < |s| ensures t[Rank(s, i)] == i {
      assert ranks[t[ranks[i]]] == ranks[i];
    }
    RanksGiveStableSort(s, t);
  }

  // ---------------------------------------------------------------- bwt_inverse

  lemma CountNext(s: seq<byte>, i: nat)
    requires i < |s|
    ensures forall b :: CountEqual(s[..i + 1], b) == CountEqual(s[..i], b) + if s[i] == b then 1 else 0
  {
    assert s[..i + 1][..i] == s[..i];
  }

  /** The first loops of `bwt_inverse`: how often each byte occurs. */
  method CountBytes(block: array<byte>, blocklen: nat) returns (counts: array<int>)
    requires blocklen <= block.Length
    ensures fresh(counts) && counts.Length == 256
    ensures forall b :: 0 <= b < 256 ==> counts[b] == CountEqual(block[..blocklen], b)
  {
    ghost var s := block[..blocklen];
    counts := new int[256];
    for i := 0 to 256
      invariant forall b :: 0 <= b < i ==> counts[b] == 0
    {
      counts[i] := 0;
    }
    for i := 0 to blocklen
      invariant forall b :: 0 <= b < 256 ==> counts[b] == CountEqual(s[..i], b)
    {
      CountNext(s, i);
      counts[block[i]] := counts[block[i]] + 1;
    }
    assert s[..blocklen] == s;
  }

  /** The middle loop of `bwt_inverse`: where the run of each byte starts; the counters are
      reset on the way. */
  method StartPositions(counts: array<int>, ghost s: seq<byte>) returns (cumulative: array<int>)
    requires counts.Length == 256
    requires forall b :: 0 <= b < 256 ==> counts[b] == CountEqual(s, b)
    modifies counts
    ensures fresh(cumulative) && cumulative.Length == 256
    ensures forall b :: 0 <= b < 256 ==> cumulative[b] == CountLess(s, b) && counts[b] == 0
  {
    cumulative := new int[256];
    var total := 0;
    NoneBelowZero(s);
    for i := 0 to 256
      invariant total == CountLess(s, i)
      invariant forall b :: 0 <= b < i ==> cumulative[b] == CountLess(s, b) && counts[b] == 0
      invariant forall b :: i <= b < 256 ==> counts[b] == CountEqual(s, b)
    {
      CountBelowNext(s, i);
      cumulative[i] := total;
      total := total + counts[i];
      counts[i] := 0;
    }
  }

  /** The slot of position `i` is in range and no earlier position has it. */
  lemma FreshSlot(s: seq<byte>, i: nat)
    requires i < |s|
    ensures Rank(s, i) < |s|
    ensures forall k :: 0 <= k < i ==> Rank(s, k) != Rank(s, i)
  {
    RanksPermute(s);
  }

  method BwtInverse(transform: array<int>, block: array<byte>, blocklen: nat)
    requires blocklen <= block.Length && blocklen <= transform.Length
    modifies transform
    ensures StableSort(block[..blocklen], transform[..blocklen])
    ensures transform[blocklen..] == old(transform[blocklen..])
  {
    hide CountLess, CountEqual, StableSort;
    ghost var s := block[..blocklen];
    var counts := CountBytes(block, blocklen);
    var cumulative := StartPositions(counts, s);
    for i := 0 to blocklen
      invariant forall b :: 0 <= b < 256 ==> cumulative[b] == CountLess(s, b)
      invariant forall b :: 0 <= b < 256 ==> counts[b] == CountEqual(s[..i], b)
      invariant forall k :: 0 <= k < i ==> Rank(s, k) < blocklen && transform[Rank(s, k)] == k
      invariant forall k :: blocklen <= k < transform.Length ==> transform[k] == old(transform[k])
      modifies counts, transform
    {
      CountNext(s, i);
      FreshSlot(s, i);
      assert cumulative[block[i]] + counts[block[i]] == Rank(s, i);
      transform[cumulative[block[i]] + counts[block[i]]] := i;
      counts[block[i]] := counts[block[i]] + 1;
    }
    RanksGiveStableSort(s, transform[..blocklen]);
  }
}
