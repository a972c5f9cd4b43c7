/** The little-endian bit reader `BrLE2` of the LZW decoder. */
module LeReader {
  import opened Bytes
  import opened UFiles

  /** Widest read for which the 32-bit accumulator, holding up to 7 old bits, never overflows. */
  const MAX_READ := 25

  class BrLE2 {
    const uf: UFile
    var buf: nat
    var bits: nat
    /** What the file held when the reader was made, and where. */
    ghost const stream: seq<byte>
    ghost const origin: nat
    /** How many bits have been returned so far. */
    ghost var consumed: nat

    ghost predicate Valid()
      reads this, uf
    {
      && bits <= 7
      && buf == LsbField(stream, consumed, bits)
      && AtByte(consumed + bits)
    }

    /** All bits below `pos`, a whole number of bytes, have been fetched from the file. */
    ghost predicate AtByte(pos: nat)
      reads uf
    {
      && pos % 8 == 0
      && uf.off == origin + Min(pos / 8, |stream|)
      && stream == if origin <= |uf.contents| then uf.contents[origin..] else []
    }

    /** `br2_init` */
    constructor (uf: UFile)
      ensures Valid() && this.uf == uf && consumed == 0 && bits == 0
      ensures stream == uf.Remaining() && origin == uf.off
    {
      this.uf, buf, bits := uf, 0, 0;
      stream, origin, consumed := uf.Remaining(), uf.off, 0;
    }

    /** One turn of the refill loop. */
    method Fetch()
      requires AtByte(consumed + bits) && buf == LsbField(stream, consumed, bits) && bits <= 24
      modifies this`buf, this`bits, uf
      ensures bits == old(bits) + 8
      ensures AtByte(consumed + bits) && buf == LsbField(stream, consumed, bits)
    {
      hide Pow2, LsbField, Or, ShiftLeft;
      ghost var pos := consumed + bits;
      assert uf.Remaining() == stream[Min(pos / 8, |stream|)..];
      var b := uf.Read8();
      assert b == ByteAt(stream, pos / 8);
      LsbFieldBound(stream, consumed, bits);
      LsbWholeByte(stream, pos / 8);
      LsbFieldConcat(stream, consumed, bits, 8);
      ShiftFits(b, bits);
      OrDisjoint(buf, b, bits);
      buf := Or(buf, ShiftLeft(b, bits));
      bits := bits + 8;
    }

    /** The refill loop of `br2_bits`. */
    method Fill(n: nat)
      requires Valid() && n <= MAX_READ
      modifies this`buf, this`bits, uf
      ensures n <= bits && bits <= Max(7, n + 7)
      ensures AtByte(consumed + bits) && buf == LsbField(stream, consumed, bits)
    {
      hide LsbField, BrLE2.AtByte;
      while bits < n
        invariant bits <= n + 7
        invariant AtByte(consumed + bits) && buf == LsbField(stream, consumed, bits)
        decreases n - bits
      {
        Fetch();
      }
    }

    /** `br2_bits` */
    method Bits(n: nat) returns (v: nat)
      requires Valid() && n <= MAX_READ
      modifies this, uf
      ensures Valid()
      ensures v == LsbField(stream, old(consumed), n) < Pow2(n)
      ensures consumed == old(consumed) + n
    {
      hide LsbField, And, ShiftRight, Pow2;
      Fill(n);
      TakeLow(stream, consumed, n, bits);
      v := And(buf, Pow2(n) - 1);
      buf := ShiftRight(buf, n);
      bits := bits - n;
      consumed := consumed + n;
    }
  }

  /** Masking and shifting the accumulator separate its first `n` bits from the others. */
  lemma TakeLow(s: seq<byte>, pos: nat, n: nat, held: nat)
    requires n <= held
    ensures And(LsbField(s, pos, held), Pow2(n) - 1) == LsbField(s, pos, n) < Pow2(n)
    ensures ShiftRight(LsbField(s, pos, held), n) == LsbField(s, pos + n, held - n)
  {
    hide *;
    AndMask(LsbField(s, pos, held), n);
    ShiftRightDivides(LsbField(s, pos, held), n);
    LsbFieldSplit(s, pos, n, held);
    LsbFieldBound(s, pos, n);
  }

  /** A byte shifted by at most 24 stays inside the word. */
  lemma ShiftFits(b: byte, k: nat)
    requires k <= 24
    ensures ShiftLeft(b, k) == b * Pow2(k)
  {
    hide Pow2;
    Pow2Monotone(k, 24);
    Pow2Values();
    MulOrder(b, 255, Pow2(k));
  }

  /** With 26 bits asked for, the fourth refill can shift a byte by 25 and lose its top bit:
      MAX_READ cannot be raised. */
  lemma WiderReadsLoseBits(b: byte)
    ensures ShiftLeft(b, 25) == b * Pow2(25) <==> b < 128
  {
    Pow2Values();
  }
}
