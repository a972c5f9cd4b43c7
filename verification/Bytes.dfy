/** Bytes, powers of two, the bit operations of C on unsigned words, and a byte stream read as a
    stream of bits. */
module Bytes {
  type byte = b: int | 0 <= b < 256

  function Min(a: int, b: int): int {
    if a <= b then a else b
  }

  function Max(a: int, b: int): int {
    if a <= b then b else a
  }

  function Pow2(k: nat): (p: nat)
    ensures p > 0
  {
    if k == 0 then 1 else 2 * Pow2(k - 1)
  }

  lemma {:induction false} Pow2Add(a: nat, b: nat)
    ensures Pow2(a + b) == Pow2(a) * Pow2(b)
  {
    if a == 0 {
    } else {
      Pow2Add(a - 1, b);
      assert 2 * (Pow2(a - 1) * Pow2(b)) == (2 * Pow2(a - 1)) * Pow2(b);
    }
  }

  lemma {:induction false} Pow2Monotone(a: nat, b: nat)
    requires a <= b
    ensures Pow2(a) <= Pow2(b)
  {
    if a < b {
      Pow2Monotone(a, b - 1);
    }
  }

  lemma Pow2Distinct(a: nat, b: nat)
    requires a < b
    ensures 2 * Pow2(a) <= Pow2(b)
  {
    Pow2Monotone(a + 1, b);
  }

  lemma Pow2Values()
    ensures Pow2(8) == 0x100 && Pow2(9) == 0x200 && Pow2(14) == 0x4000
    ensures Pow2(16) == 0x1_0000 && Pow2(24) == 0x100_0000 && Pow2(25) == 0x200_0000
    ensures Pow2(32) == WORD
  {
    assert Pow2(8) == 256;
    Pow2Add(8, 6);
    Pow2Add(8, 8);
    Pow2Add(16, 8);
    Pow2Add(16, 16);
  }

  // ---------------------------------------------------------------- C operators

  const WORD := 0x1_0000_0000

  /** `x << k` on a 32-bit unsigned word. */
  function ShiftLeft(x: nat, k: nat): nat {
    x * Pow2(k) % WORD
  }

  /** `x >> k` */
  function ShiftRight(x: nat, k: nat): nat
    decreases k
  {
    if k == 0 then x else ShiftRight(x / 2, k - 1)
  }

  /** `x | y` */
  function Or(x: nat, y: nat): nat {
    if x == 0 && y == 0 then 0
    else (if x % 2 == 1 || y % 2 == 1 then 1 else 0) + 2 * Or(x / 2, y / 2)
  }

  /** `x & y` */
  function And(x: nat, y: nat): nat {
    if x == 0 || y == 0 then 0
    else (if x % 2 == 1 && y % 2 == 1 then 1 else 0) + 2 * And(x / 2, y / 2)
  }

  lemma {:induction false} ShiftRightDivides(x: nat, k: nat)
    ensures ShiftRight(x, k) == x / Pow2(k)
    decreases k
  {
    if k > 0 {
      ShiftRightDivides(x / 2, k - 1);
      DivTwice(x, Pow2(k - 1));
    }
  }

  lemma {:induction false} OrZero(y: nat)
    ensures Or(0, y) == y && Or(y, 0) == y
  {
    if y > 0 {
      OrZero(y / 2);
    }
  }

  /** Writing above the bits already held loses nothing. */
  lemma {:induction false} OrDisjoint(x: nat, y: nat, k: nat)
    requires x < Pow2(k)
    ensures Or(x, y * Pow2(k)) == x + y * Pow2(k)
  {
    if k == 0 {
      OrZero(y);
    } else {
      var half := y * Pow2(k - 1);
      assert y * Pow2(k) == 2 * half;
      OrDisjoint(x / 2, y, k - 1);
    }
  }

  lemma {:induction false} AndMask(x: nat, n: nat)
    ensures And(x, Pow2(n) - 1) == x % Pow2(n)
  {
    if n == 0 {
    } else {
      AndMask(x / 2, n - 1);
      var p := Pow2(n - 1);
      assert (Pow2(n) - 1) / 2 == p - 1 && (Pow2(n) - 1) % 2 == 1;
      ModHalves(x, p);
      if x > 0 {
        assert And(x, Pow2(n) - 1) == x % 2 + 2 * And(x / 2, p - 1);
      }
    }
  }

  lemma ModHalves(x: nat, p: nat)
    requires p > 0
    ensures x % (2 * p) == x % 2 + 2 * (x / 2 % p)
  {
    var q, r := x / 2 / p, x / 2 % p;
    assert x == 2 * (q * p + r) + x % 2;
    assert 2 * (q * p) == q * (2 * p);
    DivModUnique(x, 2 * p, q, 2 * r + x % 2);
  }

  lemma DivModUnique(x: int, d: int, q: int, r: int)
    requires d > 0 && x == q * d + r && 0 <= r < d
    ensures x / d == q && x % d == r
  {
    var q', r' := x / d, x % d;
    assert x == q' * d + r';
    assert (q - q') * d == r' - r;
    if q > q' {
      assert (q - q') * d >= d by { MulGrows(q - q', d); }
    } else if q < q' {
      assert (q' - q) * d >= d by { MulGrows(q' - q, d); }
    }
  }

  lemma MulOrder(a: int, b: int, m: int)
    requires a <= b && 0 <= m
    ensures a * m <= b * m
  {
  }

  lemma MulGrows(a: int, d: int)
    requires a >= 1 && d > 0
    ensures a * d >= d
  {
    assert (a - 1) * d >= 0;
  }

  /** The power-of-two test `x & (x - 1)`. */
  lemma {:induction false} AndPredecessor(x: nat)
    requires x > 0
    ensures And(x, x - 1) == 0 <==> exists k: nat :: x == Pow2(k)
  {
    if x == 1 {
      assert x == Pow2(0);
    } else if x % 2 == 0 {
      AndPredecessor(x / 2);
      assert (x - 1) / 2 == x / 2 - 1;
      if k: nat :| x / 2 == Pow2(k) {
        assert x == Pow2(k + 1);
      }
      if k: nat :| x == Pow2(k) {
        assert x / 2 == Pow2(k - 1);
      }
    } else {
      AndSelf(x / 2);
      assert (x - 1) / 2 == x / 2;
      forall k: nat ensures x != Pow2(k) {
      }
    }
  }

  lemma {:induction false} AndSelf(x: nat)
    ensures And(x, x) == x
  {
    if x > 0 {
      AndSelf(x / 2);
    }
  }

  // ---------------------------------------------------------------- bit streams

  /** The bytes of a file, then zeros for ever. */
  ghost function ByteAt(s: seq<byte>, i: nat): byte {
    if i < |s| then s[i] else 0
  }

  ghost function Bit(x: nat, k: nat): (b: nat)
    ensures b < 2
  {
    x / Pow2(k) % 2
  }

  /** Bit `pos` of the stream when each byte is read from its least significant bit. */
  ghost function LsbBit(s: seq<byte>, pos: nat): (b: nat)
    ensures b < 2
  {
    Bit(ByteAt(s, pos / 8), pos % 8)
  }

  /** The `n`-bit field at `pos`, least significant bit first. */
  ghost function LsbField(s: seq<byte>, pos: nat, n: nat): (v: nat)
    decreases n
  {
    if n == 0 then 0 else LsbBit(s, pos) + 2 * LsbField(s, pos + 1, n - 1)
  }

  lemma {:induction false} LsbFieldBound(s: seq<byte>, pos: nat, n: nat)
    ensures LsbField(s, pos, n) < Pow2(n)
    decreases n
  {
    if n > 0 {
      LsbFieldBound(s, pos + 1, n - 1);
    }
  }

  /** Two adjacent fields read as one. */
  lemma {:induction false} LsbFieldConcat(s: seq<byte>, pos: nat, a: nat, b: nat)
    ensures LsbField(s, pos, a + b) == LsbField(s, pos, a) + LsbField(s, pos + a, b) * Pow2(a)
    decreases a
  {
    hide LsbBit, Bit;
    if a > 0 {
      LsbFieldConcat(s, pos + 1, a - 1, b);
      var low, high, p := LsbField(s, pos + 1, a - 1), LsbField(s, pos + a, b), Pow2(a - 1);
      assert LsbField(s, pos, a + b) == LsbBit(s, pos) + 2 * LsbField(s, pos + 1, a - 1 + b);
      Doubled(high, p);
    }
  }

  lemma Doubled(x: int, p: int)
    ensures 2 * (x * p) == x * (2 * p)
  {
  }

  lemma LsbFieldSplit(s: seq<byte>, pos: nat, n: nat, m: nat)
    requires n <= m
    ensures LsbField(s, pos, m) % Pow2(n) == LsbField(s, pos, n)
    ensures LsbField(s, pos, m) / Pow2(n) == LsbField(s, pos + n, m - n)
  {
    LsbFieldConcat(s, pos, n, m - n);
    LsbFieldBound(s, pos, n);
    DivModUnique(LsbField(s, pos, m), Pow2(n), LsbField(s, pos + n, m - n), LsbField(s, pos, n));
  }

  lemma {:induction false} LsbPartOfByte(s: seq<byte>, i: nat, k: nat, n: nat)
    requires k + n == 8
    ensures LsbField(s, 8 * i + k, n) == ByteAt(s, i) / Pow2(k)
    decreases n
  {
    var v := ByteAt(s, i);
    if n == 0 {
      assert Pow2(8) == 256;
      SmallDiv(v);
    } else {
      LsbPartOfByte(s, i, k + 1, n - 1);
      assert (8 * i + k) / 8 == i && (8 * i + k) % 8 == k;
      DivTwice(v, Pow2(k));
    }
  }

  lemma SmallDiv(v: byte)
    ensures v / 256 == 0
  {
  }

  /** Halving before or after a division. */
  lemma DivTwice(v: nat, p: nat)
    requires p > 0
    ensures v / (2 * p) == v / p / 2 == v / 2 / p
  {
    var q := v / p;
    assert v == q * p + v % p;
    assert (q / 2) * (2 * p) == (q / 2 * 2) * p;
    assert q * p == (q / 2 * 2) * p + (q % 2) * p;
    assert (q % 2) * p <= p;
    DivModUnique(v, 2 * p, q / 2, (q % 2) * p + v % p);
    var h := v / 2;
    assert h == h / p * p + h % p;
    assert h / p * (2 * p) == 2 * (h / p * p);
    DivModUnique(v, 2 * p, h / p, 2 * (h % p) + v % 2);
  }

  /** A whole byte is the field at its own position. */
  lemma LsbWholeByte(s: seq<byte>, i: nat)
    ensures LsbField(s, 8 * i, 8) == ByteAt(s, i)
  {
    hide *;
    LsbPartOfByte(s, i, 0, 8);
    WholeByte(ByteAt(s, i));
  }

  lemma WholeByte(v: byte)
    ensures v / Pow2(0) == v
  {
  }
}
