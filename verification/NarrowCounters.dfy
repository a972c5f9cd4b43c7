/** The code counter of the LZW decoder where `int` has 16 bits, as on the 68K compilers. */
module NarrowCounters {
  import opened Bytes
  import opened Lzw
  import opened LzwRuns
  import opened LzwPack

  /** C's remainder by 8: it has the sign of the dividend. */
  function Rem8(x: int): int {
    if x >= 0 then x % 8 else -((-x) % 8)
  }

  /** The skip computed from a counter kept in a 16-bit int. */
  function PaddingInt16(w: nat, k: nat): int {
    var counter := (k + 0x8000) % 0x1_0000 - 0x8000;
    if Rem8(counter) == 0 then 0 else w * (8 - Rem8(counter))
  }

  /** For a clear as code `k` such a counter skips the right number of bits exactly when it has not gone negative or the
      clear code ends a group anyway. */
  lemma NarrowCounter(w: nat, k: nat)
    requires w > 0
    ensures PaddingInt16(w, k) == Padding(w, k) <==> k % 0x1_0000 < 0x8000 || k % 8 == 0
  {
    var low := k % 0x1_0000;
    LowBits(k);
    if low >= 0x8000 && low % 8 != 0 {
      var r := (0x1_0000 - low) % 8;
      assert r == 8 - low % 8;
      Wider(w, 8 + r, 8 - low % 8);
    }
  }

  lemma LowBits(k: nat)
    ensures var low := k % 0x1_0000;
            low % 8 == k % 8 && (k + 0x8000) % 0x1_0000 - 0x8000 == if low < 0x8000 then low else low - 0x1_0000
  {
  }

  lemma Wider(w: nat, a: int, b: int)
    requires w > 0 && a > b
    ensures w * a > w * b
  {
    MulGrows(a - b, w);
    assert w * a - w * b == (a - b) * w;
  }

  // ---------------------------------------------------------------- runs

  /** The code after `n` others of this data is a clear code, and the `k`-th code of its segment. */
  ghost predicate ClearAt(data: seq<byte>, n: nat, k: nat) {
    && After(data, n).Some? && After(data, n).value.k + 1 == k
    && Step(data, After(data, n).value).Cleared?
  }

  /** The bits the decoder should skip there, and those it skips. */
  ghost predicate SkipsRight(data: seq<byte>, n: nat, k: nat)
    requires ClearAt(data, n, k)
  {
    var w := WidthOf(|After(data, n).value.table.dict|);
    PaddingInt16(w, k) == Padding(w, k)
  }

  ghost function Falses(n: nat): (r: seq<bool>)
    ensures |r| == n && forall i :: 0 <= i < n ==> !r[i]
  {
    seq(n, _ => false)
  }

  /** `k` times the code 0, and a clear code. */
  ghost function ClearBits(k: nat): seq<bool> {
    Falses(BitsAfter(k)) + ToBits(CLEAR, WidthAt(k))
  }

  lemma {:induction false} ToBitsZero(n: nat)
    ensures ToBits(0, n) == Falses(n)
  {
    if n > 0 {
      ToBitsZero(n - 1);
    }
  }

  lemma {:induction false} BitsMonotone(j: nat, k: nat)
    requires j <= k
    ensures BitsAfter(j) <= BitsAfter(k)
  {
    if j < k {
      BitsMonotone(j, k - 1);
    }
  }

  lemma ZeroRead(k: nat, j: nat)
    requires j < k
    ensures LsbField(FileOf(ClearBits(k)), BitsAfter(j), WidthAt(j)) == 0
  {
    hide ToBits, FileOf, LsbField, WidthAt, BitsAfter;
    var bits, pos, w := ClearBits(k), BitsAfter(j), WidthAt(j);
    BitsMonotone(j + 1, k);
    OneMoreCode(j);
    ToBitsZero(w);
    assert bits[pos..pos + w] == Falses(w);
    FieldReads(bits, pos, 0, w);
  }

  lemma ClearRead(k: nat)
    ensures LsbField(FileOf(ClearBits(k)), BitsAfter(k), WidthAt(k)) == CLEAR
  {
    hide ToBits, FileOf, LsbField, WidthAt, BitsAfter;
    var bits, pos, w := ClearBits(k), BitsAfter(k), WidthAt(k);
    ClearFits(k);
    assert bits[pos..pos + w] == ToBits(CLEAR, w);
    FieldReads(bits, pos, CLEAR, w);
  }

  /** The decoder reads the zero codes one by one. */
  lemma {:induction false} ZerosRun(k: nat, j: nat)
    requires j <= k
    ensures var data := FileOf(ClearBits(k));
            && After(data, j).Some? && InStep(After(data, j).value)
            && After(data, j).value.k == j && After(data, j).value.pos == BitsAfter(j)
  {
    hide FileOf, ClearBits, LsbField, BitsAfter, InStep, WidthAt, Step;
    var data := FileOf(ClearBits(k));
    RunInStep(data, j);
    if j == 0 {
      NoBits();
    } else {
      ZerosRun(k, j - 1);
      ZeroRead(k, j - 1);
      OneMoreCode(j - 1);
      ZeroStep(data, After(data, j - 1).value);
    }
  }

  lemma NoBits()
    ensures BitsAfter(0) == 0
  {
  }

  lemma ZeroStep(data: seq<byte>, m: Machine)
    requires InStep(m) && LsbField(data, m.pos, WidthAt(m.k)) == 0
    ensures Step(data, m).Emitted?
    ensures Step(data, m).next.pos == m.pos + WidthAt(m.k) && Step(data, m).next.k == m.k + 1
  {
    hide LsbField, BitsAfter, Bounded;
    assert SymAt(data, m) == 0;
  }

  /** A clear code can come as any code of a segment. */
  lemma ClearComes(k: nat)
    requires 0 < k
    ensures ClearAt(FileOf(ClearBits(k - 1)), k - 1, k)
  {
    hide FileOf, ClearBits, LsbField, BitsAfter, Bounded;
    ZerosRun(k - 1, k - 1);
    ClearRead(k - 1);
    assert SymAt(FileOf(ClearBits(k - 1)), After(FileOf(ClearBits(k - 1)), k - 1).value) == CLEAR;
  }

  lemma SkipsRightIff(data: seq<byte>, n: nat, k: nat)
    requires ClearAt(data, n, k)
    ensures SkipsRight(data, n, k) <==> k % 0x1_0000 < 0x8000 || k % 8 == 0
  {
    hide Step, PaddingInt16, Padding, WidthOf;
    NarrowCounter(WidthOf(|After(data, n).value.table.dict|), k);
  }

  /** Whenever a clear is the `k`-th code of its segment the decoder skips the right number of bits, if
      and only if the counter is not negative by then or the clear ends a group anyway. */
  lemma NarrowCounterIff(k: nat)
    requires 0 < k
    ensures (forall data, n :: ClearAt(data, n, k) ==> SkipsRight(data, n, k)) <==>
            k % 0x1_0000 < 0x8000 || k % 8 == 0
  {
    hide ClearAt, SkipsRight, FileOf, ClearBits;
    forall data, n | ClearAt(data, n, k)
      ensures SkipsRight(data, n, k) <==> k % 0x1_0000 < 0x8000 || k % 8 == 0
    {
      SkipsRightIff(data, n, k);
    }
    ClearComes(k);
  }

  /** What it skips when the counter is negative: a group and the rest of one. */
  lemma WrongAmount(w: nat, k: nat)
    requires k % 0x1_0000 >= 0x8000 && k % 8 != 0
    ensures PaddingInt16(w, k) == w * (16 - k % 8)
  {
    LowBits(k);
    var low := k % 0x1_0000;
    assert (0x1_0000 - low) % 8 == 8 - low % 8;
  }

  /** The first code that goes wrong: with its width of 14 bits, 210 bits are skipped instead of 98. */
  lemma FirstWrongSkip()
    ensures exists data, n :: ClearAt(data, n, 32769) && !SkipsRight(data, n, 32769) &&
                              WidthOf(|After(data, n).value.table.dict|) == 14
    ensures PaddingInt16(14, 32769) == 210 && Padding(14, 32769) == 98
  {
    hide FileOf, ClearBits, Step;
    ClearComes(32769);
    RunInStep(FileOf(ClearBits(32768)), 32768);
    WrongAmount(14, 32769);
    SkipsRightIff(FileOf(ClearBits(32768)), 32768, 32769);
  }
}
