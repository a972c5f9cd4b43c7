/** The buffered bit reader that serves bits most significant first. */
module BitReaders {
  import opened Bytes
  import opened UFiles

  /** `BR_BUFSZ` */
  const BUFSIZE := 512

  // ---------------------------------------------------------------- what a reader delivers

  /** What a reader delivers is fixed by the file from where it starts, by how many bytes it expects
      there (its `length` field, counted from `base`), and by what its buffer held before. */
  datatype Source = Source(file: seq<byte>, declared: nat, before: seq<byte>)

  /** `length` does not promise bytes the file does not have. */
  ghost predicate Exact(src: Source) {
    src.declared <= |src.file|
  }

  /** Where the refill starts that runs into the end of the file. */
  ghost function LastFill(src: Source): (at: nat)
    ensures at <= |src.file| && at % BUFSIZE == 0
  {
    |src.file| / BUFSIZE * BUFSIZE
  }

  /** The buffer after `at` bytes, when all refills so far have been full. */
  ghost function Filled(src: Source, at: nat): (b: seq<byte>)
    requires |src.before| == BUFSIZE && at % BUFSIZE == 0 && at <= |src.file|
    ensures |b| == BUFSIZE
  {
    if at == 0 then src.before else src.file[at - BUFSIZE..at]
  }

  /** The buffer from the last refill on: the end of the file over what was there before. */
  ghost function Stale(src: Source): (b: seq<byte>)
    requires |src.before| == BUFSIZE
    ensures |b| == BUFSIZE
  {
    var at := LastFill(src);
    src.file[at..] + Filled(src, at)[|src.file| - at..]
  }

  /** How many bytes of it that refill makes good for. */
  ghost function Served(src: Source): nat
    requires !Exact(src)
  {
    Min(BUFSIZE, src.declared - LastFill(src))
  }

  /** How many every later refill makes good for: the file does not get shorter by reading nothing. */
  ghost function Again(src: Source): (n: nat)
    requires !Exact(src)
    ensures 0 < n <= BUFSIZE
  {
    Min(BUFSIZE, src.declared - |src.file|)
  }

  /** Byte `p` of what is delivered: the file's bytes; then zeros for ever when the length is exact;
      otherwise the rest of the buffer, and then its first bytes over and over. */
  ghost function ByteOf(src: Source, p: nat): byte
    requires |src.before| == BUFSIZE
  {
    if p < |src.file| && p < src.declared then src.file[p]
    else if Exact(src) then 0
    else if p < LastFill(src) + Served(src) then Stale(src)[p - LastFill(src)]
    else Stale(src)[(p - LastFill(src) - Served(src)) % Again(src)]
  }

  /** Bit `pos` when each byte is read from its most significant bit. */
  ghost function MsbBit(src: Source, pos: nat): (b: nat)
    requires |src.before| == BUFSIZE
    ensures b < 2
  {
    Bit(ByteOf(src, pos / 8), 7 - pos % 8)
  }

  /** The `n`-bit field at `pos`, most significant bit first. */
  ghost function MsbField(src: Source, pos: nat, n: nat): nat
    requires |src.before| == BUFSIZE
  {
    if n == 0 then 0 else 2 * MsbField(src, pos, n - 1) + MsbBit(src, pos + n - 1)
  }

  lemma {:induction false} MsbFieldBound(src: Source, pos: nat, n: nat)
    requires |src.before| == BUFSIZE
    ensures MsbField(src, pos, n) < Pow2(n)
  {
    if n > 0 {
      MsbFieldBound(src, pos, n - 1);
    }
  }

  lemma {:induction false} MsbFieldConcat(src: Source, pos: nat, a: nat, b: nat)
    requires |src.before| == BUFSIZE
    ensures MsbField(src, pos, a + b) == MsbField(src, pos, a) * Pow2(b) + MsbField(src, pos + a, b)
    decreases b
  {
    hide MsbBit, Bit;
    if b > 0 {
      MsbFieldConcat(src, pos, a, b - 1);
      assert MsbField(src, pos, a + b) == 2 * MsbField(src, pos, a + (b - 1)) + MsbBit(src, pos + a + b - 1);
      Doubled(MsbField(src, pos, a), Pow2(b - 1));
    }
  }

  // ---------------------------------------------------------------- when the end is padded with zeros

  /** For one file and one buffer: zeros follow the file exactly when nothing too much is promised or
      all the stale bytes happen to be zeros. */
  lemma ZeroTailIff(src: Source)
    requires |src.before| == BUFSIZE && |src.file| <= src.declared
    ensures (forall p: nat :: ByteOf(src, p) == ByteAt(src.file, p)) <==> Exact(src) || StaleZeros(src)
  {
    hide Stale, LastFill, Served;
    if !Exact(src) {
      BehindTheFile(src);
      if forall p: nat :: ByteOf(src, p) == ByteAt(src.file, p) {
        ZerosShow(src);
      }
      if StaleZeros(src) {
        forall p: nat ensures ByteOf(src, p) == ByteAt(src.file, p) {
          ZerosServed(src, p);
        }
      }
    }
  }

  ghost predicate StaleZeros(src: Source)
    requires |src.before| == BUFSIZE && !Exact(src)
  {
    && (forall i :: |src.file| - LastFill(src) <= i < Served(src) ==> Stale(src)[i] == 0)
    && (forall i :: 0 <= i < Again(src) ==> Stale(src)[i] == 0)
  }

  lemma ZerosShow(src: Source)
    requires |src.before| == BUFSIZE && !Exact(src)
    requires forall p: nat :: ByteOf(src, p) == ByteAt(src.file, p)
    ensures StaleZeros(src)
  {
    hide Stale, LastFill, Served, Again, ByteOf;
    BehindTheFile(src);
    var at, n := LastFill(src), Served(src);
    forall i | |src.file| - at <= i < n ensures Stale(src)[i] == 0 {
      RestByte(src, i);
      assert ByteOf(src, at + i) == ByteAt(src.file, at + i);
    }
    forall i | 0 <= i < Again(src) ensures Stale(src)[i] == 0 {
      AgainByte(src, i);
      assert ByteOf(src, at + n + i) == ByteAt(src.file, at + n + i);
    }
  }

  lemma RestByte(src: Source, i: nat)
    requires |src.before| == BUFSIZE && !Exact(src) && |src.file| - LastFill(src) <= i < Served(src)
    ensures i < BUFSIZE && ByteOf(src, LastFill(src) + i) == Stale(src)[i]
  {
    hide Stale, LastFill;
  }

  lemma AgainByte(src: Source, i: nat)
    requires |src.before| == BUFSIZE && !Exact(src) && i < Again(src)
    ensures i < BUFSIZE && ByteOf(src, LastFill(src) + Served(src) + i) == Stale(src)[i]
  {
    hide Stale, LastFill, Served, Again;
    BehindTheFile(src);
    RoundAgain(0, Again(src), i);
    assert LastFill(src) + Served(src) + i - LastFill(src) - Served(src) == i;
  }

  lemma ZerosServed(src: Source, p: nat)
    requires |src.before| == BUFSIZE && !Exact(src) && StaleZeros(src)
    ensures ByteOf(src, p) == ByteAt(src.file, p)
  {
    hide Stale, LastFill, Served;
    BehindTheFile(src);
  }

  lemma BehindTheFile(src: Source)
    requires !Exact(src)
    ensures |src.file| < LastFill(src) + BUFSIZE && |src.file| < LastFill(src) + Served(src)
    ensures 0 < Served(src) <= BUFSIZE
  {
  }

  /** The bytes a reader is opened on: `length` is that of the whole file, also behind a header. */
  ghost function Opened(file: seq<byte>, length: int, base: nat, origin: nat, before: seq<byte>): Source {
    Source(file, Max(0, length + base - origin), before)
  }

  /** For a file of any length, opened as the program opens it: the reads are those of the file
      followed by zeros, whatever its bytes and whatever the buffer held before, if and only if there
      is no MacBinary header or reading starts behind everything that is promised. */
  lemma ZeroPaddedIff(length: nat, base: nat, origin: nat)
    ensures (forall file, before, p: nat :: |file| == Max(0, length - origin) && |before| == BUFSIZE ==>
                ByteOf(Opened(file, length, base, origin, before), p) == ByteAt(file, p)) <==>
            base == 0 || length + base <= origin
  {
    var n := Max(0, length - origin);
    if base != 0 && length + base > origin {
      var file, before: seq<byte> := seq(n, _ => 255), seq(BUFSIZE, _ => 255);
      var src := Opened(file, length, base, origin, before);
      BehindTheFile(src);
      assert ByteOf(src, LastFill(src) + Served(src)) == Stale(src)[0] == 255;
      assert ByteAt(file, LastFill(src) + Served(src)) == 0;
    }
  }

  /** The first byte behind the end of a file whose length promises too much: what stood a buffer length
      before it, in the file or in the buffer. */
  lemma FirstStale(src: Source)
    requires |src.before| == 512 && !Exact(src)
    ensures ByteOf(src, |src.file|) ==
            if |src.file| < 512 then src.before[|src.file|] else src.file[|src.file| - 512]
  {
    BehindTheFile(src);
  }

  // ---------------------------------------------------------------- refills

  /** What holds when a refill is due after `at` bytes: how much of the file has been fetched, and,
      where it will matter, what the buffer holds. */
  ghost predicate Due(src: Source, window: seq<byte>, fetched: int, at: nat)
    requires |src.before| == BUFSIZE
  {
    if Exact(src) then fetched == Min(at, src.declared)
    else if at <= |src.file| then at % BUFSIZE == 0 && fetched == at && window == Filled(src, at)
    else
      && LastFill(src) + Served(src) <= at && (at - LastFill(src) - Served(src)) % Again(src) == 0
      && fetched == |src.file| && window == Stale(src)
  }

  /** A refill of `n` bytes, `got` of them from the file, after `done` bytes. */
  ghost predicate Refill(src: Source, window: seq<byte>, window': seq<byte>, fetched: nat, done: nat, n: int, got: nat)
    requires |src.before| == BUFSIZE
  {
    && |window| == |window'| == BUFSIZE && Due(src, window, fetched, done)
    && fetched <= |src.file| && n == Min(BUFSIZE, src.declared - fetched) && 0 < n
    && got == Min(n, |src.file| - fetched)
    && window'[..got] == src.file[fetched..fetched + got] && window'[got..] == window[got..]
  }

  lemma RefillFrom(src: Source, window: seq<byte>, window': seq<byte>, fetched: nat, done: nat, n: int, got: nat)
    requires |src.before| == BUFSIZE && |window| == |window'| == BUFSIZE && Due(src, window, fetched, done)
    requires fetched <= |src.file| && n == Min(BUFSIZE, src.declared - fetched) && 0 < n
    requires got == Min(n, |src.file| - fetched)
    requires window'[..got] == src.file[fetched..][..got] && window'[got..] == window[got..]
    ensures Refill(src, window, window', fetched, done, n, got)
  {
    hide Due;
  }

  lemma RefillExact(src: Source, window: seq<byte>, window': seq<byte>, fetched: nat, done: nat, n: int, got: nat)
    requires |src.before| == BUFSIZE && Refill(src, window, window', fetched, done, n, got) && Exact(src)
    ensures forall p :: 0 <= p < n ==> window'[p] == ByteOf(src, done + p)
    ensures Due(src, window', fetched + got, done + n)
  {
    assert forall p :: 0 <= p < n ==> window'[p] == window'[..got][p] == src.file[done + p];
  }

  /** The buffer after a refill that runs into the end of the file. */
  lemma LastRefill(src: Source, window: seq<byte>, window': seq<byte>, done: nat, n: int, got: nat)
    requires |src.before| == BUFSIZE && Refill(src, window, window', done, done, n, got) && !Exact(src)
    requires done <= |src.file| < done + BUFSIZE && done % BUFSIZE == 0
    ensures done == LastFill(src) && n == Served(src) && window' == Stale(src)
  {
    assert done / BUFSIZE == |src.file| / BUFSIZE;
    assert window' == window'[..got] + window'[got..];
  }

  /** A full refill. */
  lemma RefillFull(src: Source, window: seq<byte>, window': seq<byte>, done: nat, n: int, got: nat)
    requires |src.before| == BUFSIZE && Refill(src, window, window', done, done, n, got)
    requires !Exact(src) && done + BUFSIZE <= |src.file| && done % BUFSIZE == 0
    ensures forall p :: 0 <= p < n ==> window'[p] == ByteOf(src, done + p)
    ensures Due(src, window', done + got, done + n)
  {
    hide Stale, LastFill;
    assert got == n == BUFSIZE;
    assert window' == window'[..got];
    assert (done + BUFSIZE) % BUFSIZE == 0;
  }

  /** The refill that runs into the end of the file. */
  lemma RefillLast(src: Source, window: seq<byte>, window': seq<byte>, done: nat, n: int, got: nat)
    requires |src.before| == BUFSIZE && Refill(src, window, window', done, done, n, got)
    requires !Exact(src) && done <= |src.file| < done + BUFSIZE && done % BUFSIZE == 0
    ensures forall p :: 0 <= p < n ==> window'[p] == ByteOf(src, done + p)
    ensures Due(src, window', done + got, done + n)
  {
    LastRefill(src, window, window', done, n, got);
    hide Stale, LastFill, Filled;
    BehindTheFile(src);
    assert forall p :: 0 <= p < got ==> window'[p] == window'[..got][p] == src.file[done + p];
  }

  lemma RefillNothing(src: Source, window: seq<byte>, window': seq<byte>, fetched: nat, done: nat, n: int, got: nat)
    requires |src.before| == BUFSIZE && Refill(src, window, window', fetched, done, n, got)
    requires !Exact(src) && |src.file| < done
    ensures forall p :: 0 <= p < n ==> window'[p] == ByteOf(src, done + p)
    ensures Due(src, window', fetched + got, done + n)
  {
    hide Stale, LastFill, Served, Filled;
    BehindTheFile(src);
    assert window' == window'[got..] == window;
    var past := done - LastFill(src) - Served(src);
    assert n == Again(src);
    forall p | 0 <= p < n ensures window'[p] == ByteOf(src, done + p) {
      RoundAgain(past, n, p);
    }
    RoundAgain(past, n, 0);
  }

  lemma RoundAgain(past: int, n: int, p: int)
    requires 0 <= p < n && past % n == 0
    ensures (past + p) % n == p && (past + n) % n == 0
  {
    DivModUnique(past + p, n, past / n, p);
    DivModUnique(past + n, n, past / n + 1, 0);
  }

  lemma DueEarly(src: Source, window: seq<byte>, fetched: int, done: nat)
    requires |src.before| == BUFSIZE && Due(src, window, fetched, done) && !Exact(src) && done <= |src.file|
    ensures fetched == done && done % BUFSIZE == 0
  {
  }

  lemma Refilled(src: Source, window: seq<byte>, window': seq<byte>, fetched: nat, done: nat, n: int, got: nat)
    requires |src.before| == BUFSIZE && Refill(src, window, window', fetched, done, n, got)
    ensures forall p :: 0 <= p < n ==> window'[p] == ByteOf(src, done + p)
    ensures Due(src, window', fetched + got, done + n)
  {
    hide Due, ByteOf, Served, LastFill, Stale, Filled;
    if Exact(src) {
      RefillExact(src, window, window', fetched, done, n, got);
    } else if done <= |src.file| {
      DueEarly(src, window, fetched, done);
      if done + BUFSIZE <= |src.file| {
        RefillFull(src, window, window', done, n, got);
      } else {
        RefillLast(src, window, window', done, n, got);
      }
    } else {
      RefillNothing(src, window, window', fetched, done, n, got);
    }
  }

  /** Nothing more is promised: the reader has come to the end of an exact length. */
  lemma NoneDeclared(src: Source, window: seq<byte>, fetched: int, done: nat)
    requires |src.before| == BUFSIZE && Due(src, window, fetched, done) && src.declared <= fetched
    ensures ByteOf(src, done) == 0 && Due(src, window, fetched, done + 1)
  {
  }

  lemma DueFetched(src: Source, window: seq<byte>, fetched: int, done: nat)
    requires |src.before| == BUFSIZE && Due(src, window, fetched, done)
    ensures 0 <= fetched <= |src.file|
  {
  }

  // ---------------------------------------------------------------- the reader

  class BitReader {
    const uf: UFile
    var buf: nat
    /** Bits of `buf` not yet returned. */
    var bits: nat
    /** The static buffer and the window of it that holds unread bytes. */
    const sbuf: array<byte>
    var rp: int
    var rend: int
    /** What the reader was opened on, and where. */
    ghost const source: Source
    ghost const origin: nat
    /** How many bits have been returned so far. */
    ghost var consumed: nat

    /** After `done` bytes: the window holds the bytes that come next. */
    ghost predicate Window(done: nat)
      reads this, sbuf, uf
    {
      && sbuf.Length == BUFSIZE == |source.before| && 0 <= rp <= rend <= BUFSIZE
      && source.file == (if origin <= |uf.contents| then uf.contents[origin..] else [])
      && source.declared == Max(0, uf.length + uf.base - origin)
      && (forall p :: rp <= p < rend ==> sbuf[p] == ByteOf(source, done + p - rp))
      && Due(source, sbuf[..], uf.off - origin, done + rend - rp)
    }

    ghost predicate Valid()
      reads this, sbuf, uf
    {
      && bits <= 7 && (consumed + bits) % 8 == 0
      && Window((consumed + bits) / 8)
      && (bits > 0 ==> buf == ByteOf(source, consumed / 8))
    }

    /** `br_init` */
    constructor (uf: UFile, sbuf: array<byte>)
      requires sbuf.Length == BUFSIZE
      ensures Valid() && this.uf == uf && this.sbuf == sbuf && consumed == 0
      ensures source == Opened(uf.Remaining(), uf.length, uf.base, uf.off, sbuf[..])
    {
      this.uf, this.sbuf, buf, bits, rp, rend := uf, sbuf, 0, 0, 0, 0;
      source := Opened(uf.Remaining(), uf.length, uf.base, uf.off, sbuf[..]);
      origin, consumed := uf.off, 0;
    }

    /** The read of `br_nextbyte`. */
    method Load(n: int, ghost fetched: nat, ghost done: nat)
      requires sbuf.Length == BUFSIZE == |source.before| && Due(source, sbuf[..], fetched, done)
      requires fetched <= |source.file| && n == Min(BUFSIZE, source.declared - fetched) && 0 < n
      requires uf.off == origin + fetched && uf.Remaining() == source.file[fetched..]
      modifies sbuf, uf
      ensures forall p :: 0 <= p < n ==> sbuf[p] == ByteOf(source, done + p)
      ensures Due(source, sbuf[..], uf.off - origin, done + n)
    {
      hide ByteOf, Due, Refill;
      ghost var got := Min(n, |source.file| - fetched);
      var r := uf.Read(sbuf, n);
      assert sbuf[..][..got] == sbuf[..got] && sbuf[..][got..] == sbuf[got..];
      assert old(sbuf[..])[got..] == old(sbuf[got..]);
      RefillFrom(source, old(sbuf[..]), sbuf[..], fetched, done, n, got);
      Refilled(source, old(sbuf[..]), sbuf[..], fetched, done, n, got);
    }

    /** `br_nextbyte` */
    method NextByte(ghost done: nat) returns (b: byte)
      requires Window(done) && rp == rend
      modifies this`rp, this`rend, sbuf, uf
      ensures Window(done + 1) && b == ByteOf(source, done)
    {
      hide ByteOf, Due, Refill, ByteAt;
      ghost var fetched := uf.off - origin;
      DueFetched(source, sbuf[..], fetched, done);
      var n := BUFSIZE;
      var t := uf.Tell();
      var avail := uf.length - t;
      if n > avail { n := avail; }
      if n <= 0 {
        NoneDeclared(source, sbuf[..], fetched, done);
        return 0;
      }
      Load(n, fetched, done);
      rp := 1;
      rend := n;
      return sbuf[0];
    }

    /** The slow half of `br_bit`: the next byte, from the window or from a refill. */
    method TakeByte()
      requires Valid() && bits == 0
      modifies this`buf, this`rp, this`rend, sbuf, uf
      ensures Window(consumed / 8 + 1) && buf == ByteOf(source, consumed / 8)
    {
      hide ByteOf, Due;
      if rp < rend {
        buf := sbuf[rp];
        rp := rp + 1;
      } else {
        buf := NextByte(consumed / 8);
      }
    }

    /** The fast half of `br_bit`: the next bit of the current byte. */
    method TakeBit() returns (b: int)
      requires 1 <= bits <= 8 && (consumed + bits) % 8 == 0 && Window((consumed + bits) / 8)
      requires buf == ByteOf(source, consumed / 8)
      modifies this`bits, this`consumed
      ensures Valid() && consumed == old(consumed) + 1 && b == MsbBit(source, old(consumed))
    {
      hide ByteOf, Due, ShiftRight, Pow2;
      BitInByte(consumed, bits);
      bits := bits - 1;
      ShiftRightDivides(buf, bits);
      b := ShiftRight(buf, bits) % 2;
      consumed := consumed + 1;
    }

    /** `br_bit` */
    method ReadBit() returns (b: int)
      requires Valid()
      modifies this, sbuf, uf
      ensures Valid() && consumed == old(consumed) + 1 && b == MsbBit(source, old(consumed))
    {
      hide ByteOf, Due, MsbBit;
      if bits == 0 {
        TakeByte();
        bits := 8;
      }
      b := TakeBit();
    }

    /** `br_bits`: the accumulator is a 32-bit word. */
    method ReadBits(n: nat) returns (v: nat)
      requires Valid()
      modifies this, sbuf, uf
      ensures Valid() && consumed == old(consumed) + n
      ensures v == MsbField(source, old(consumed), n) % WORD
    {
      hide BitReader.Window, BitReader.Valid, MsbBit, Or, ShiftLeft;
      HasBuffer();
      v := 0;
      for i := 0 to n
        invariant Valid() && consumed == old(consumed) + i
        invariant v == MsbField(source, old(consumed), i) % WORD
      {
        var b := ReadBit();
        AppendBit(MsbField(source, old(consumed), i), v, b);
        v := Or(ShiftLeft(v, 1), b);
      }
    }

    lemma HasBuffer()
      requires Valid()
      ensures |source.before| == BUFSIZE
    {
    }
  }

  lemma BitInByte(consumed: nat, bits: nat)
    requires 1 <= bits <= 8 && (consumed + bits) % 8 == 0
    ensures bits - 1 == 7 - consumed % 8
    ensures bits > 1 ==> (consumed + 1) / 8 == consumed / 8
  {
  }

  /** Shifting a word left by one and putting a bit in its place, when the word holds the low
      bits of the field `f`. */
  lemma AppendBit(f: nat, v: nat, b: nat)
    requires v == f % WORD && b < 2
    ensures Or(ShiftLeft(v, 1), b) == (2 * f + b) % WORD
  {
    hide Or, Pow2;
    var half := v % (WORD / 2);
    DoubleWord(f, v, b);
    PowOne();
    OrLowBit(half, b);
  }

  lemma PowOne()
    ensures Pow2(1) == 2
  {
  }

  lemma DoubleWord(f: nat, v: nat, b: nat)
    requires v == f % WORD && b < 2
    ensures v * 2 % WORD == 2 * (v % (WORD / 2))
    ensures (2 * f + b) % WORD == 2 * (v % (WORD / 2)) + b
  {
    var h, half := v / (WORD / 2), v % (WORD / 2);
    DivModUnique(v * 2, WORD, h, 2 * half);
    DivModUnique(2 * f + b, WORD, 2 * (f / WORD) + h, 2 * half + b);
  }

  lemma OrLowBit(x: nat, b: nat)
    requires b < 2
    ensures Or(2 * x, b) == 2 * x + b
  {
    OrZero(x);
  }

  /** Reading `a + b` bits is reading `a` bits, shifting them up, and reading `b` more. */
  lemma ReadTogether(src: Source, pos: nat, a: nat, b: nat)
    requires |src.before| == BUFSIZE && a + b <= 32
    ensures MsbField(src, pos, a + b) % WORD ==
            MsbField(src, pos, a) % WORD * Pow2(b) + MsbField(src, pos + a, b) % WORD
  {
    hide *;
    MsbFieldConcat(src, pos, a, b);
    FieldFits(src, pos, a);
    FieldFits(src, pos + a, b);
    FieldFits(src, pos, a + b);
  }

  lemma FieldFits(src: Source, pos: nat, n: nat)
    requires |src.before| == BUFSIZE && n <= 32
    ensures MsbField(src, pos, n) < WORD && MsbField(src, pos, n) % WORD == MsbField(src, pos, n)
  {
    hide MsbField, Pow2;
    MsbFieldBound(src, pos, n);
    Pow2Monotone(n, 32);
    Pow2Values();
  }

  // ---------------------------------------------------------------- a file behind a header

  /** A whole byte is the field at its own position. */
  lemma {:induction false} ByteField(src: Source, i: nat, k: nat)
    requires |src.before| == BUFSIZE && k <= 8
    ensures MsbField(src, 8 * i, k) == ByteOf(src, i) / Pow2(8 - k)
  {
    hide ByteOf;
    var v := ByteOf(src, i);
    if k == 0 {
      assert Pow2(8) == 256;
      SmallDiv(v);
    } else {
      ByteField(src, i, k - 1);
      assert (8 * i + k - 1) / 8 == i && (8 * i + k - 1) % 8 == k - 1;
      DivTwice(v, Pow2(8 - k));
    }
  }

  ghost function Behind(before: seq<byte>): Source {
    Source([255], 129, before)
  }

  lemma BehindByte(before: seq<byte>)
    requires |before| == BUFSIZE
    ensures MsbField(Behind(before), 0, 8) == ByteOf(Behind(before), 0) == 255
    ensures MsbField(Behind(before), 8 * 129, 8) == ByteOf(Behind(before), 129) == 255
  {
    var src := Behind(before);
    assert LastFill(src) == 0 && Served(src) == 129 && Again(src) == 128;
    assert Stale(src)[0] == 255;
    ByteField(src, 0, 8);
    ByteField(src, 129, 8);
    WholeByte(ByteOf(src, 129));
  }

  /** One byte, 255, behind a MacBinary header, and a buffer of zeros as the program starts with. After
      that byte and 128 zeros the reader delivers it again. */
  method ReadBehindHeader(header: seq<byte>) returns (first: nat, again: nat)
    requires |header| == 128
    ensures first == again == 255
  {
    hide ByteOf, MsbField, Stale, BitReader.Valid, BitReader.Window;
    var sbuf := new byte[BUFSIZE](_ => 0);
    var uf := new UFile(header + [255], 128, 129, 128);
    var br := new BitReader(uf, sbuf);
    BehindByte(sbuf[..]);
    assert br.source == Behind(sbuf[..]);
    first := br.ReadBits(8);
    var _ := br.ReadBits(8 * 128);
    again := br.ReadBits(8);
  }

  /** Any file behind a header, opened with a buffer of zeros: the byte read behind its end is the one 512
      places before. */
  method ReadPastEnd(header: seq<byte>, body: seq<byte>) returns (next: nat)
    requires |header| == 128
    ensures next == if |body| < 512 then 0 else body[|body| - 512]
  {
    hide ByteOf, MsbField, Stale, BitReader.Valid, BitReader.Window;
    var sbuf := new byte[512](_ => 0);
    var uf := new UFile(header + body, 128, 128 + |body|, 128);
    var br := new BitReader(uf, sbuf);
    var _ := br.ReadBits(8 * |body|);
    next := br.ReadBits(8);
    ghost var src := br.source;
    FirstStale(src);
    ByteField(src, |body|, 8);
    WholeByte(ByteOf(src, |body|));
  }
}
