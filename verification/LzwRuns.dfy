/** What holds after any number of codes: table size, code width, byte alignment at a clear, and
    how long a phrase can be. */
module LzwRuns {
  import opened Wrappers
  import opened Bytes
  import opened Lzw

  /** Table size when `k` codes of the current segment have been read. */
  function SizeAfter(k: nat): (n: nat)
    ensures CLEAR < n <= MAXSYMS
  {
    Min(MAXSYMS, 256 + Max(1, k))
  }

  function WidthAt(k: nat): nat {
    WidthOf(SizeAfter(k))
  }

  /** Bits taken by the first `k` codes of a segment. */
  ghost function BitsAfter(k: nat): nat {
    if k == 0 then 0 else BitsAfter(k - 1) + WidthAt(k - 1)
  }

  /** The width changes only between groups of eight codes. */
  lemma GroupHasOneWidth(g: nat, r: nat)
    requires r < 8
    ensures WidthAt(8 * g + r) == WidthAt(8 * g)
  {
  }

  lemma {:induction false} BitsInGroup(g: nat, r: nat)
    requires r <= 8
    ensures BitsAfter(8 * g + r) == BitsAfter(8 * g) + r * WidthAt(8 * g)
    decreases r
  {
    hide WidthAt;
    if r > 0 {
      BitsInGroup(g, r - 1);
      GroupHasOneWidth(g, r - 1);
      OneMore(r - 1, WidthAt(8 * g));
    }
  }

  lemma OneMore(r: int, w: int)
    ensures r * w + w == (r + 1) * w
  {
  }

  lemma {:induction false} GroupsAligned(g: nat)
    ensures BitsAfter(8 * g) % 8 == 0
  {
    hide WidthAt;
    if g > 0 {
      GroupsAligned(g - 1);
      BitsInGroup(g - 1, 8);
      assert 8 * (g - 1) + 8 == 8 * g;
    }
  }

  /** A clear code as code `k + 1` of its segment, with its padding, fills whole bytes. */
  lemma {:induction false} ClearEndsOnByte(k: nat)
    ensures (BitsAfter(k) + WidthAt(k) + Padding(WidthAt(k), k + 1)) % 8 == 0
  {
    hide WidthAt, BitsAfter;
    var g, r := k / 8, k % 8;
    BitsInGroup(g, r);
    GroupHasOneWidth(g, r);
    GroupsAligned(g);
    var w := WidthAt(8 * g);
    assert k == 8 * g + r;
    PaddingFillsGroup(g, r, w);
    ModAdd(BitsAfter(8 * g), 0, r * w + w + Padding(w, k + 1));
  }

  lemma PaddingFillsGroup(g: nat, r: nat, w: nat)
    requires r < 8
    ensures r * w + w + Padding(w, 8 * g + r + 1) == 8 * w
  {
    if r < 7 {
      assert (8 * g + r + 1) % 8 == r + 1;
      Sum(r, w);
    } else {
      assert (8 * g + r + 1) % 8 == 0;
    }
  }

  lemma Sum(r: nat, w: nat)
    ensures r * w + w + w * (8 - (r + 1)) == 8 * w
  {
  }

  /** No entry is longer than its distance from the single bytes. */
  ghost predicate Bounded(d: Dictionary) {
    forall i :: Live(d, i) ==> |d[i]| <= Max(1, i - 255)
  }

  /** What every reachable machine satisfies. */
  ghost predicate InStep(m: Machine) {
    && GoodTable(m.table)
    && |m.table.dict| == SizeAfter(m.k)
    && (m.table.prev == -1 <==> m.k == 0)
    && m.pos % 8 == BitsAfter(m.k) % 8
    && Bounded(m.table.dict)
  }

  lemma StartInStep()
    ensures InStep(Start())
  {
    BoundedInitially();
  }

  lemma BoundedInitially()
    ensures Bounded(InitialDictionary())
  {
  }

  lemma NextInStep(t: Table, k: nat, sym: nat)
    requires GoodTable(t) && Bounded(t.dict) && |t.dict| == SizeAfter(k) && (t.prev == -1 <==> k == 0)
    requires sym != CLEAR && sym < MAXSYMS && Next(t, sym).Some?
    ensures var u := Next(t, sym).value;
            Bounded(u.dict) && |u.dict| == SizeAfter(k + 1) && u.prev != -1 && |u.dict[sym]| <= k + 1
  {
    var u := Next(t, sym).value;
    forall i | Live(u.dict, i) ensures |u.dict[i]| <= Max(1, i - 255) {
      if i < |t.dict| {
        assert Live(t.dict, i) && u.dict[i] == t.dict[i];
      } else {
        assert Live(t.dict, t.prev);
      }
    }
    assert Live(u.dict, sym);
  }

  lemma ClearInStep(data: seq<byte>, m: Machine)
    requires InStep(m) && Step(data, m).Cleared?
    ensures InStep(Step(data, m).next) && Step(data, m).next.pos % 8 == 0
  {
    hide Bounded, SymAt;
    BoundedInitially();
    ClearEndsOnByte(m.k);
    var w := WidthAt(m.k);
    ModAdd(m.pos, BitsAfter(m.k), w + Padding(w, m.k + 1));
  }

  lemma ModAdd(a: nat, b: nat, c: nat)
    requires a % 8 == b % 8
    ensures (a + c) % 8 == (b + c) % 8
  {
  }

  lemma OneMoreCode(k: nat)
    ensures BitsAfter(k + 1) == BitsAfter(k) + WidthAt(k)
  {
  }

  /** Every step keeps the invariant, a clear ends on a byte boundary, and the phrase of the
      `k`-th code of a segment has at most `k` bytes. */
  lemma StepInStep(data: seq<byte>, m: Machine)
    requires InStep(m)
    ensures !Step(data, m).Failed? ==> InStep(Step(data, m).next)
    ensures Step(data, m).Cleared? ==> Step(data, m).next.pos % 8 == 0
    ensures Step(data, m).Emitted? ==> 1 <= |Step(data, m).phrase| <= Step(data, m).next.k
  {
    hide Bounded, SymAt, Next, WidthOf, BitsAfter;
    if Step(data, m).Cleared? {
      ClearInStep(data, m);
    } else if Step(data, m).Emitted? {
      OneMoreCode(m.k);
      NextInStep(m.table, m.k, SymAt(data, m));
      ModAdd(m.pos, BitsAfter(m.k), WidthAt(m.k));
    }
  }

  /** The machine after `n` codes. */
  ghost function After(data: seq<byte>, n: nat): (r: Option<Machine>)
    ensures r.Some? ==> GoodTable(r.value.table)
  {
    if n == 0 then Some(Start())
    else
      match After(data, n - 1)
      case None => None
      case Some(m) => if Step(data, m).Failed? then None else Some(Step(data, m).next)
  }

  lemma {:induction false} RunInStep(data: seq<byte>, n: nat)
    ensures After(data, n).Some? ==> InStep(After(data, n).value)
  {
    hide InStep, Step;
    if n == 0 {
      StartInStep();
    } else {
      RunInStep(data, n - 1);
      if After(data, n - 1).Some? {
        StepInStep(data, After(data, n - 1).value);
      }
    }
  }

  /** On every run of the decoder over any data: the width is that of the table size; the code of
      the entry about to be made fits in it until the table is full, and cannot be read once it is
      full; the previous code is a live entry and fits in 16 bits. */
  lemma EveryRun(data: seq<byte>, n: nat)
    requires After(data, n).Some?
    ensures var m := After(data, n).value;
            var size, w := |m.table.dict|, WidthOf(|m.table.dict|);
            && WidthFits(size, w)
            && (size < MAXSYMS ==> size < Pow2(w))
            && (size == MAXSYMS ==> SymAt(data, m) < size)
            && (m.table.prev == -1 || (Live(m.table.dict, m.table.prev) && m.table.prev < 0x8000))
            && (m.k == 0 ==> m.pos % 8 == 0)
  {
    hide After, Bounded, LsbField, Pow2;
    RunInStep(data, n);
    var m := After(data, n).value;
    WidthValues();
    WidthUnique(|m.table.dict|, WidthOf(|m.table.dict|));
  }
}
