/** The move-to-front decoder of the StuffIt decompressors. */
module MoveToFront {
  import opened Bytes
  import opened Permutations

  /** Position of the first occurrence of `v`. */
  ghost function Find(t: seq<byte>, v: byte): (i: nat)
    requires v in t
    ensures i < |t| && t[i] == v && v !in t[..i]
  {
    if t[0] == v then 0 else 1 + Find(t[1..], v)
  }

  /** The table after position `i` has been used. */
  function ToFront(t: seq<byte>, i: nat): seq<byte>
    requires i < |t|
  {
    [t[i]] + t[..i] + t[i + 1..]
  }

  /** The table of `mtf_reset`. */
  function Identity(n: nat): (t: seq<byte>)
    requires n <= 256
    ensures |t| == n && forall i :: 0 <= i < n ==> t[i] == i
  {
    seq(n, i requires 0 <= i < n => i)
  }

  // ---------------------------------------------------------------- runs

  ghost function TableAfter(t: seq<byte>, symbols: seq<byte>): (r: seq<byte>)
    requires |t| == 256
    ensures |r| == 256
    decreases |symbols|
  {
    if symbols == [] then t else TableAfter(ToFront(t, symbols[0]), symbols[1..])
  }

  ghost function Decoded(t: seq<byte>, symbols: seq<byte>): (r: seq<byte>)
    requires |t| == 256
    ensures |r| == |symbols|
    decreases |symbols|
  {
    if symbols == [] then [] else [t[symbols[0]]] + Decoded(ToFront(t, symbols[0]), symbols[1..])
  }

  lemma {:induction false} DecodedStep(t: seq<byte>, symbols: seq<byte>, next: byte)
    requires |t| == 256
    ensures Decoded(t, symbols + [next]) == Decoded(t, symbols) + [TableAfter(t, symbols)[next]]
    ensures TableAfter(t, symbols + [next]) == ToFront(TableAfter(t, symbols), next)
    decreases |symbols|
  {
    var all := symbols + [next];
    if symbols == [] {
      assert all[1..] == [];
    } else {
      assert all[1..] == symbols[1..] + [next];
      DecodedStep(ToFront(t, symbols[0]), symbols[1..], next);
    }
  }

  /** Every byte stands in the table exactly once. */
  ghost predicate IsTable(t: seq<byte>) {
    IsPermutation(t, 256)
  }

  lemma TableHolds(t: seq<byte>, v: byte)
    requires IsTable(t)
    ensures v in t
  {
    Surjective(t, 256, v);
  }

  lemma ToFrontKeepsTable(t: seq<byte>, i: nat)
    requires IsTable(t) && i < 256
    ensures IsTable(ToFront(t, i))
  {
    var r := ToFront(t, i);
    assert forall k :: 0 <= k < 256 ==> r[k] == t[if k == 0 then i else if k <= i then k - 1 else k];
  }

  /** The encoder: send each value's position, then move it to the front. */
  ghost function Encoded(t: seq<byte>, values: seq<byte>): (symbols: seq<byte>)
    requires IsTable(t)
    ensures |symbols| == |values|
    decreases |values|
  {
    if values == [] then []
    else
      TableHolds(t, values[0]);
      var i := Find(t, values[0]);
      ToFrontKeepsTable(t, i);
      [i] + Encoded(ToFront(t, i), values[1..])
  }

  /** Decoding the encoder's output returns the original values. */
  lemma {:induction false} DecodeEncode(t: seq<byte>, values: seq<byte>)
    requires IsTable(t)
    ensures Decoded(t, Encoded(t, values)) == values
    decreases |values|
  {
    if values != [] {
      TableHolds(t, values[0]);
      var i := Find(t, values[0]);
      ToFrontKeepsTable(t, i);
      DecodeEncode(ToFront(t, i), values[1..]);
      assert Encoded(t, values)[1..] == Encoded(ToFront(t, i), values[1..]);
    }
  }

  /** ... and every symbol string is some encoder's output. */
  lemma {:induction false} EncodeDecode(t: seq<byte>, symbols: seq<byte>)
    requires IsTable(t)
    ensures Encoded(t, Decoded(t, symbols)) == symbols
    decreases |symbols|
  {
    if symbols != [] {
      var v := t[symbols[0]];
      var i := Find(t, v);
      assert i == symbols[0];
      ToFrontKeepsTable(t, i);
      EncodeDecode(ToFront(t, i), symbols[1..]);
      assert Decoded(t, symbols)[1..] == Decoded(ToFront(t, i), symbols[1..]);
    }
  }

  // ---------------------------------------------------------------- what the table holds

  ghost function Without(s: seq<byte>, v: byte): (r: seq<byte>)
    ensures forall x :: x in r <==> x in s && x != v
  {
    if s == [] then [] else if s[0] == v then Without(s[1..], v) else [s[0]] + Without(s[1..], v)
  }

  /** The distinct values of `history`, most recently used first. */
  ghost function RecentFirst(history: seq<byte>): (r: seq<byte>)
    ensures forall x :: x in r <==> x in history
  {
    if history == [] then []
    else
      var n := |history| - 1;
      assert history == history[..n] + [history[n]];
      [history[n]] + Without(RecentFirst(history[..n]), history[n])
  }

  /** The values below `n` that never occur in `history`, in increasing order. */
  ghost function Unused(history: seq<byte>, n: nat): (r: seq<byte>)
    requires n <= 256
    ensures forall x: byte :: x in r <==> x !in history && x < n
  {
    if n == 0 then []
    else if n - 1 in history then Unused(history, n - 1)
    else Unused(history, n - 1) + [n - 1]
  }

  lemma {:induction false} WithoutConcat(a: seq<byte>, b: seq<byte>, v: byte)
    ensures Without(a + b, v) == Without(a, v) + Without(b, v)
  {
    if a == [] {
      assert a + b == b;
    } else {
      assert (a + b)[1..] == a[1..] + b;
      WithoutConcat(a[1..], b, v);
    }
  }

  lemma {:induction false} WithoutAbsent(a: seq<byte>, v: byte)
    requires v !in a
    ensures Without(a, v) == a
  {
    if a != [] {
      WithoutAbsent(a[1..], v);
    }
  }

  lemma {:induction false} UnusedShrinks(history: seq<byte>, v: byte, n: nat)
    requires n <= 256
    ensures Unused(history + [v], n) == Without(Unused(history, n), v)
  {
    if n > 0 {
      UnusedShrinks(history, v, n - 1);
      if n - 1 !in history {
        WithoutConcat(Unused(history, n - 1), [n - 1], v);
      }
    }
  }

  lemma {:induction false} UnusedAtStart(n: nat)
    requires n <= 256
    ensures Unused([], n) == Identity(n)
  {
    if n > 0 {
      UnusedAtStart(n - 1);
    }
  }

  lemma {:induction false} WithoutAround(a: seq<byte>, v: byte, b: seq<byte>)
    requires v !in a && v !in b
    ensures Without(a + [v] + b, v) == a + b
  {
    assert a + [v] + b == a + ([v] + b);
    WithoutConcat(a, [v] + b, v);
    assert ([v] + b)[1..] == b;
    WithoutAbsent(a, v);
    WithoutAbsent(b, v);
  }

  /** Moving a value of a duplicate-free table to the front. */
  lemma {:induction false} ToFrontIsWithout(t: seq<byte>, i: nat)
    requires Injective(t) && i < |t|
    ensures ToFront(t, i) == [t[i]] + Without(t, t[i])
  {
    hide Without;
    WithoutAround(t[..i], t[i], t[i + 1..]);
    assert t == t[..i] + [t[i]] + t[i + 1..];
  }

  ghost function RecencyTable(history: seq<byte>): seq<byte> {
    RecentFirst(history) + Unused(history, 256)
  }

  /** One decode keeps the recency order. */
  lemma RecencyStep(history: seq<byte>, i: nat)
    requires |RecencyTable(history)| == 256 && i < 256
    ensures var t := RecencyTable(history);
            ToFront(t, i) == RecencyTable(history + [t[i]])
  {
    hide RecentFirst, Without, Unused, ToFront;
    RecencyInjective(history);
    var t := RecencyTable(history);
    var v := t[i];
    ToFrontIsWithout(t, i);
    WithoutConcat(RecentFirst(history), Unused(history, 256), v);
    UnusedShrinks(history, v, 256);
    RecentStep(history, v);
  }

  lemma RecentStep(history: seq<byte>, v: byte)
    ensures RecentFirst(history + [v]) == [v] + Without(RecentFirst(history), v)
  {
    assert (history + [v])[..|history|] == history;
  }

  lemma {:induction false} WithoutInjective(s: seq<byte>, v: byte)
    requires Injective(s)
    ensures Injective(Without(s, v))
  {
    if s != [] {
      assert forall i :: 0 <= i < |s| - 1 ==> s[1..][i] == s[i + 1];
      assert s[0] !in s[1..];
      WithoutInjective(s[1..], v);
    }
  }

  lemma {:induction false} RecentInjective(history: seq<byte>)
    ensures Injective(RecentFirst(history))
  {
    if history != [] {
      var n := |history| - 1;
      RecentInjective(history[..n]);
      WithoutInjective(RecentFirst(history[..n]), history[n]);
      assert history[n] !in Without(RecentFirst(history[..n]), history[n]);
    }
  }

  lemma {:induction false} UnusedInjective(history: seq<byte>, n: nat)
    requires n <= 256
    ensures Injective(Unused(history, n))
  {
    if n > 0 {
      UnusedInjective(history, n - 1);
    }
  }

  lemma RecencyInjective(history: seq<byte>)
    ensures Injective(RecencyTable(history))
  {
    var a, b, t := RecentFirst(history), Unused(history, 256), RecencyTable(history);
    RecentInjective(history);
    UnusedInjective(history, 256);
    assert forall x :: x in a ==> x !in b;
    forall i, j | 0 <= i < j < |t| ensures t[i] != t[j] {
      assert t[i] == if i < |a| then a[i] else b[i - |a|];
      assert t[j] == if j < |a| then a[j] else b[j - |a|];
      if i < |a| <= j {
        assert a[i] in a && b[j - |a|] in b;
      }
    }
  }

  /** After a reset and any run of decodes, the table is a permutation of the bytes: those
      decoded so far, most recent first, then the others in increasing order. */
  lemma {:induction false} TableIsRecency(symbols: seq<byte>)
    ensures TableAfter(Identity(256), symbols) == RecencyTable(Decoded(Identity(256), symbols))
    ensures IsTable(TableAfter(Identity(256), symbols))
    decreases |symbols|
  {
    hide RecentFirst, Without, Unused;
    var start := Identity(256);
    if symbols == [] {
      FreshTable();
    } else {
      var n := |symbols| - 1;
      var front, s := symbols[..n], symbols[n];
      assert symbols == front + [s];
      TableIsRecency(front);
      DecodedStep(start, front, s);
      ToFrontKeepsTable(TableAfter(start, front), s);
      RecencyStep(Decoded(start, front), s);
    }
  }

  lemma IdentityAt(n: nat, t: seq<byte>)
    requires |t| == n <= 256 && forall i :: 0 <= i < n ==> t[i] == i
    ensures t == Identity(n)
  {
  }

  lemma FreshTable()
    ensures RecencyTable([]) == Identity(256)
  {
    hide Unused, Identity;
    UnusedAtStart(256);
    assert RecentFirst([]) == [];
  }

  // ---------------------------------------------------------------- the decoder

  class MTFState {
    const table: array<byte>
    /** The values decoded since the last reset. */
    ghost var history: seq<byte>

    constructor ()
      ensures table.Length == 256 && fresh(table)
    {
      table := new byte[256];
    }

    /** The table lists the values decoded since the reset, most recent first, and then the
        values not yet seen in increasing order. */
    ghost predicate Recency()
      reads this, table
    {
      table[..] == RecencyTable(history)
    }

    /** `mtf_reset` */
    method Reset()
      requires table.Length == 256
      modifies this, table
      ensures table[..] == Identity(256)
      ensures history == [] && Recency()
    {
      hide RecencyTable, Identity;
      for i := 0 to 256
        invariant forall k :: 0 <= k < i ==> table[k] == k
      {
        table[i] := i;
      }
      history := [];
      IdentityAt(256, table[..]);
      FreshTable();
    }

    /** `mtf_decode` */
    method Decode(symbol: int) returns (value: int)
      requires table.Length == 256 && 0 <= symbol < 256
      modifies this, table
      ensures value == old(table[..])[symbol]
      ensures table[..] == ToFront(old(table[..]), symbol)
      ensures history == old(history) + [value]
      ensures old(Recency()) ==> Recency()
    {
      value := table[symbol];
      Shift(symbol);
      table[0] := value;
      assert table[..] == ToFront(old(table[..]), symbol);
      if old(Recency()) {
        RecencyStep(history, symbol);
      }
      history := history + [value];
    }

    /** The loop of `mtf_decode`. */
    method Shift(symbol: int)
      requires table.Length == 256 && 0 <= symbol < 256
      modifies table
      ensures forall k :: 0 < k <= symbol ==> table[k] == old(table[k - 1])
      ensures forall k :: symbol < k < 256 ==> table[k] == old(table[k])
    {
      var i := symbol;
      while i > 0
        invariant 0 <= i <= symbol
        invariant forall k :: 0 <= k <= i ==> table[k] == old(table[k])
        invariant forall k :: i < k <= symbol ==> table[k] == old(table[k - 1])
        invariant forall k :: symbol < k < 256 ==> table[k] == old(table[k])
      {
        table[i] := table[i - 1];
        i := i - 1;
      }
    }
  }
}
