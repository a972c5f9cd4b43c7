/** Packing the encoder's codes into a file, and the round trip through that file. */
module LzwPack {
  import opened Bytes
  import opened Lzw
  import opened LzwRuns
  import opened LzwEncoder
  import opened LzwGreedy

  // ---------------------------------------------------------------- bits to bytes

  ghost function BitAt(bits: seq<bool>, pos: nat): (b: nat)
    ensures b < 2
  {
    if pos < |bits| && bits[pos] then 1 else 0
  }

  ghost function FromBits(bits: seq<bool>, pos: nat, n: nat): (v: nat)
    ensures v < Pow2(n)
    decreases n
  {
    if n == 0 then 0 else BitAt(bits, pos) + 2 * FromBits(bits, pos + 1, n - 1)
  }

  /** The bytes of a bit string, each filled from its least significant bit, the last one with zeros. */
  ghost function FileOf(bits: seq<bool>): (f: seq<byte>)
    ensures |f| == (|bits| + 7) / 8
  {
    assert Pow2(8) == 256;
    seq((|bits| + 7) / 8, i requires 0 <= i < (|bits| + 7) / 8 => FromBits(bits, 8 * i, 8))
  }

  lemma {:induction false} BitOfFromBits(bits: seq<bool>, pos: nat, n: nat, j: nat)
    requires j < n
    ensures Bit(FromBits(bits, pos, n), j) == BitAt(bits, pos + j)
    decreases j
  {
    var x := FromBits(bits, pos, n);
    if j > 0 {
      BitOfFromBits(bits, pos + 1, n - 1, j - 1);
      DivTwice(x, Pow2(j - 1));
      assert x / 2 == FromBits(bits, pos + 1, n - 1);
    }
  }

  lemma FileByte(bits: seq<bool>, i: nat)
    ensures ByteAt(FileOf(bits), i) == if i < |FileOf(bits)| then FromBits(bits, 8 * i, 8) else 0
  {
  }

  lemma FileBit(bits: seq<bool>, pos: nat)
    ensures LsbBit(FileOf(bits), pos) == BitAt(bits, pos)
  {
    hide Bit, FileOf, FromBits, ByteAt;
    var i := pos / 8;
    FileByte(bits, i);
    if i < |FileOf(bits)| {
      BitOfFromBits(bits, 8 * i, 8, pos % 8);
    } else {
      ZeroBit(pos % 8);
    }
  }

  /** The `n` low bits of `v`, least significant first. */
  ghost function ToBits(v: nat, n: nat): (r: seq<bool>)
    ensures |r| == n
    decreases n
  {
    if n == 0 then [] else [v % 2 == 1] + ToBits(v / 2, n - 1)
  }

  lemma {:induction false} FieldReads(bits: seq<bool>, pos: nat, v: nat, n: nat)
    requires pos + n <= |bits| && bits[pos..pos + n] == ToBits(v, n) && v < Pow2(n)
    ensures LsbField(FileOf(bits), pos, n) == v
    decreases n
  {
    hide LsbBit, FileOf;
    if n > 0 {
      FileBit(bits, pos);
      assert bits[pos..pos + n][0] == bits[pos];
      assert bits[pos + 1..pos + n] == bits[pos..pos + n][1..];
      FieldReads(bits, pos + 1, v / 2, n - 1);
    }
  }

  lemma {:induction false} NothingBehind(bits: seq<bool>, pos: nat, n: nat)
    requires pos >= |bits|
    ensures LsbField(FileOf(bits), pos, n) == 0
    decreases n
  {
    hide LsbBit, FileOf;
    if n > 0 {
      FileBit(bits, pos);
      NothingBehind(bits, pos + 1, n - 1);
    }
  }

  // ---------------------------------------------------------------- codes to bits

  /** The codes in the decoder's widths, a clear code padded to the end of its group of eight. */
  ghost function OpBits(ops: seq<Op>, k: nat): seq<bool> {
    if ops == [] then []
    else
      match ops[0]
      case Clear =>
        ToBits(CLEAR, WidthAt(k)) + ToBits(0, Padding(WidthAt(k), k + 1)) + OpBits(ops[1..], 0)
      case Emit(c) => ToBits(c, WidthAt(k)) + OpBits(ops[1..], k + 1)
  }

  /** Every code fits the width it is written in. */
  ghost predicate Fits(ops: seq<Op>, k: nat) {
    if ops == [] then true
    else
      match ops[0]
      case Clear => Fits(ops[1..], 0)
      case Emit(c) => c < Pow2(WidthAt(k)) && Fits(ops[1..], k + 1)
  }

  lemma CodeFits(enc: Dictionary, k: nat, c: nat)
    requires Encodes(enc, k) && Live(enc, c)
    ensures c < Pow2(WidthAt(k))
  {
    WidthValues();
    WidthUnique(SizeAfter(k), WidthAt(k));
  }

  /** Whatever an encoder sends can be written in the decoder's widths. */
  lemma {:induction false} SpellsFits(ops: seq<Op>, enc: Dictionary, k: nat, input: seq<byte>)
    requires Encodes(enc, k) && LzwEncoder.Spells(ops, enc, input)
    ensures Fits(ops, k)
    decreases |ops|
  {
    if ops != [] {
      match ops[0]
      case Clear => SpellsFits(ops[1..], InitialDictionary(), 0, input);
      case Emit(c) =>
        var rest := input[|enc[c]|..];
        CodeFits(enc, k, c);
        GrownEncodes(enc, k, c, rest);
        SpellsFits(ops[1..], Grown(enc, c, rest), k + 1, rest);
    }
  }

  lemma ClearFits(k: nat)
    ensures CLEAR < Pow2(WidthAt(k))
  {
    WidthValues();
    Pow2Monotone(9, WidthAt(k));
  }

  lemma {:induction false} PackedCarries(bits: seq<bool>, pos: nat, ops: seq<Op>, k: nat)
    requires Fits(ops, k) && pos <= |bits| && bits[pos..] == OpBits(ops, k)
    ensures Carries(FileOf(bits), pos, k, ops)
    decreases |ops|
  {
    hide LsbField, ToBits, WidthAt, Padding, FileOf;
    if ops != [] {
      var w := WidthAt(k);
      match ops[0]
      case Clear =>
        var pad := Padding(w, k + 1);
        ClearFits(k);
        assert bits[pos..pos + w] == bits[pos..][..w];
        FieldReads(bits, pos, CLEAR, w);
        assert bits[pos + w + pad..] == bits[pos..][w + pad..];
        PackedCarries(bits, pos + w + pad, ops[1..], 0);
      case Emit(c) =>
        assert bits[pos..pos + w] == bits[pos..][..w];
        FieldReads(bits, pos, c, w);
        assert bits[pos + w..] == bits[pos..][w..];
        PackedCarries(bits, pos + w, ops[1..], k + 1);
    }
  }

  /** The file an encoder writes. */
  ghost function Pack(ops: seq<Op>): seq<byte> {
    FileOf(OpBits(ops, 0))
  }

  lemma {:induction false} PackCarries(ops: seq<Op>, input: seq<byte>)
    requires LzwEncoder.Spells(ops, InitialDictionary(), input)
    ensures Carries(Pack(ops), 0, 0, ops)
  {
    InitialEncodes();
    SpellsFits(ops, InitialDictionary(), 0, input);
    var bits := OpBits(ops, 0);
    assert bits[0..] == bits;
    PackedCarries(bits, 0, ops, 0);
  }

  /** For every string and every placement of clear codes, what the greedy encoder writes decodes
      to the string again, if no phrase is longer than 4096 bytes. */
  lemma FileRoundTrip(input: seq<byte>, clears: seq<bool>)
    requires NoneTooLong(Phrases(Greedy(input, clears), InitialDictionary(), input))
    ensures Decode(Pack(Greedy(input, clears)), Start(), |input|) == (0, input)
  {
    hide Encodes, Pack, NoneTooLong;
    var ops := Greedy(input, clears);
    PackCarries(ops, input);
    RoundTrip(Pack(ops), ops, input);
  }

  // ---------------------------------------------------------------- when a phrase is too long

  /** Where the decoder is after the encoder's codes: behind the last bit. */
  lemma {:induction false} RunEndsBehind(bits: seq<bool>, m: Machine, ops: seq<Op>, enc: Dictionary, input: seq<byte>)
    requires GoodTable(m.table) && InStep(m) && OneAhead(enc, m.table, input)
    requires LzwEncoder.Spells(ops, enc, input) && Carries(FileOf(bits), m.pos, m.k, ops)
    requires m.pos <= |bits| && bits[m.pos..] == OpBits(ops, m.k)
    requires InitialDictionary() <= m.table.dict
    ensures var later := Run(FileOf(bits), m, |ops|);
            later.pos == |bits| && InitialDictionary() <= later.table.dict
    decreases |ops|
  {
    hide InStep, OneAhead, SymAt, Next, GoodTable, LsbField, ToBits, Padding, FileOf, InitialDictionary, Grown, Carries;
    if ops != [] {
      var data := FileOf(bits);
      OpStep(data, m, ops, enc, input);
      var next := Step(data, m).next;
      StepPosition(data, m);
      assert bits[next.pos..] == bits[m.pos..][next.pos - m.pos..];
      match ops[0]
      case Clear =>
        RunEndsBehind(bits, next, ops[1..], InitialDictionary(), input);
      case Emit(c) =>
        var rest := input[|enc[c]|..];
        RunEndsBehind(bits, next, ops[1..], Grown(enc, c, rest), rest);
    }
  }

  lemma StepPosition(data: seq<byte>, m: Machine)
    requires GoodTable(m.table) && InStep(m) && !Step(data, m).Failed?
    ensures var next := Step(data, m).next; var w := WidthAt(m.k);
            && (Step(data, m).Emitted? ==>
                  next.pos == m.pos + w && next.k == m.k + 1 && m.table.dict <= next.table.dict)
            && (Step(data, m).Cleared? ==>
                  next.pos == m.pos + w + Padding(w, m.k + 1) && next.k == 0 && next.table.dict == InitialDictionary())
  {
    hide Bounded, LsbField, SymAt, Next, BitsAfter, InitialDictionary;
  }

  ghost function Zeros(n: nat): (z: seq<byte>)
    ensures |z| == n && forall i :: 0 <= i < n ==> z[i] == 0
  {
    seq(n, _ => 0)
  }

  /** Behind the end of the file the decoder reads zeros: the code of byte 0. */
  lemma ZeroPhrase(bits: seq<bool>, m: Machine)
    requires GoodTable(m.table) && m.pos >= |bits| && InitialDictionary() <= m.table.dict
    ensures Step(FileOf(bits), m).Emitted? && Step(FileOf(bits), m).phrase == [0]
    ensures var next := Step(FileOf(bits), m).next;
            GoodTable(next.table) && next.pos >= |bits| && InitialDictionary() <= next.table.dict
  {
    hide FileOf, InitialDictionary, WidthOf;
    NothingBehind(bits, m.pos, WidthOf(|m.table.dict|));
    assert SymAt(FileOf(bits), m) == 0;
    assert InitialDictionary()[0] == [0];
    assert m.table.dict[0] == [0];
  }

  lemma {:induction false} ZerosDecodeToZeros(bits: seq<bool>, m: Machine, room: nat)
    requires GoodTable(m.table) && m.pos >= |bits| && InitialDictionary() <= m.table.dict
    ensures Decode(FileOf(bits), m, room) == (0, Zeros(room))
    decreases room
  {
    hide FileOf, Step, GoodTable, InitialDictionary;
    if room > 0 {
      ZeroPhrase(bits, m);
      assert Clipped([0]) == [0];
      assert [0] + Zeros(room - 1) == Zeros(room);
      if room > 1 {
        ZerosDecodeToZeros(bits, Step(FileOf(bits), m).next, room - 1);
      } else {
        assert [0][..1] == Zeros(1);
      }
    }
  }

  /** What the decoder makes of the encoder's own file, for every string and every encoding: the phrases,
      each cut to its last 4096 bytes, and zeros for the bytes that are missing in the end. */
  lemma FileDecodes(ops: seq<Op>, input: seq<byte>)
    requires LzwEncoder.Spells(ops, InitialDictionary(), input)
    ensures var out := Output(Phrases(ops, InitialDictionary(), input));
            && |out| <= |input|
            && Decode(Pack(ops), Start(), |input|) == (0, out + Zeros(|input| - |out|))
  {
    hide LzwEncoder.Spells, Phrases, Output, NoneTooLong, Carries, InStep, OneAhead, Decode, Run, OpBits, FileOf;
    var bits := OpBits(ops, 0);
    PackCarries(ops, input);
    CodesSufficeIff(Pack(ops), ops, input);
    ClippingLoses(ops, InitialDictionary(), input);
    StartsAhead(input);
    assert bits[0..] == bits;
    RunEndsBehind(bits, Start(), ops, InitialDictionary(), input);
    var out, later := Output(Phrases(ops, InitialDictionary(), input)), Run(Pack(ops), Start(), |ops|);
    ZerosDecodeToZeros(bits, later, |input| - |out|);
    assert |out| == |input| ==> out + Zeros(0) == out;
  }

  ghost predicate AllZero(s: seq<byte>) {
    forall i :: 0 <= i < |s| ==> s[i] == 0
  }

  /** From the first phrase that is too long on, there are only zero bytes. */
  ghost predicate ZeroFromLong(phrases: seq<seq<byte>>) {
    forall i, j :: 0 <= i <= j < |phrases| && |phrases[i]| > 4096 ==> AllZero(phrases[j])
  }

  /** Every byte of the output is a byte of the string, at its place or further back. */
  lemma {:induction false} Shifted(phrases: seq<seq<byte>>, j: nat) returns (k: nat)
    requires j < |Output(phrases)|
    ensures j <= k < |Joined(phrases)| && Output(phrases)[j] == Joined(phrases)[k]
    ensures |phrases[0]| > 4096 ==> j < k
    decreases |phrases|
  {
    hide Clipped;
    var n, c := |phrases[0]|, |Clipped(phrases[0])|;
    ClippedEnds(phrases[0]);
    if j < c {
      k := n - c + j;
    } else {
      k := Shifted(phrases[1..], j - c);
      k := n + k;
    }
  }

  lemma ClippedEnds(phrase: seq<byte>)
    ensures |Clipped(phrase)| <= |phrase| && Clipped(phrase) == phrase[|phrase| - |Clipped(phrase)|..]
  {
  }

  lemma {:induction false} TailZero(phrases: seq<seq<byte>>, j: nat)
    requires phrases != [] && |phrases[0]| > 4096 && j <= |Joined(phrases)|
    requires |Output(phrases)| <= |Joined(phrases)|
    requires Output(phrases) + Zeros(|Joined(phrases)| - |Output(phrases)|) == Joined(phrases)
    ensures AllZero(Joined(phrases)[j..])
    decreases |Joined(phrases)| - j
  {
    hide Output, Joined;
    var s, out := Joined(phrases), Output(phrases);
    if j < |s| {
      TailZero(phrases, j + 1);
      assert s[j] == (out + Zeros(|s| - |out|))[j];
      if j < |out| {
        var k := Shifted(phrases, j);
        assert s[k] == s[j + 1..][k - j - 1];
      }
      assert forall i :: 1 <= i < |s| - j ==> s[j..][i] == s[j + 1..][i - 1];
    }
  }

  lemma {:induction false} ZeroOutput(phrases: seq<seq<byte>>)
    ensures |Output(phrases)| <= |Joined(phrases)|
    ensures AllZero(Joined(phrases)) <==> forall j :: 0 <= j < |phrases| ==> AllZero(phrases[j])
    ensures AllZero(Joined(phrases)) ==> AllZero(Output(phrases))
  {
    if phrases != [] {
      var p, rest := phrases[0], phrases[1..];
      ZeroOutput(rest);
      ZeroConcat(p, Joined(rest));
      ZeroConcat(Clipped(p), Output(rest));
      assert AllZero(p) ==> AllZero(Clipped(p));
      assert forall j :: 1 <= j < |phrases| ==> phrases[j] == rest[j - 1];
    }
  }

  lemma ZeroConcat(a: seq<byte>, b: seq<byte>)
    ensures AllZero(a + b) <==> AllZero(a) && AllZero(b)
  {
    if AllZero(a + b) {
      assert forall i :: 0 <= i < |a| ==> a[i] == (a + b)[i];
      assert forall i :: 0 <= i < |b| ==> b[i] == (a + b)[|a| + i];
    }
  }

  lemma ZeroFromRest(phrases: seq<seq<byte>>)
    requires phrases != []
    ensures if |phrases[0]| > 4096 then
              ZeroFromLong(phrases) <==> forall j :: 0 <= j < |phrases| ==> AllZero(phrases[j])
            else ZeroFromLong(phrases) <==> ZeroFromLong(phrases[1..])
  {
    hide AllZero;
    var rest := phrases[1..];
    assert forall j :: 1 <= j < |phrases| ==> phrases[j] == rest[j - 1];
    if |phrases[0]| <= 4096 && ZeroFromLong(phrases) {
      forall i, j | 0 <= i <= j < |rest| && |rest[i]| > 4096 ensures AllZero(rest[j]) {
        assert rest[i] == phrases[i + 1] && rest[j] == phrases[j + 1];
      }
    }
  }

  /** When cutting the phrases and filling up with zeros gives the string back. */
  lemma {:induction false} FilledUpIff(phrases: seq<seq<byte>>)
    ensures |Output(phrases)| <= |Joined(phrases)|
    ensures Output(phrases) + Zeros(|Joined(phrases)| - |Output(phrases)|) == Joined(phrases) <==> ZeroFromLong(phrases)
  {
    hide AllZero, ZeroFromLong;
    ZeroOutput(phrases);
    if phrases == [] {
      NothingLong();
    } else {
      ZeroFromRest(phrases);
      var s, out := Joined(phrases), Output(phrases);
      if |phrases[0]| > 4096 {
        if out + Zeros(|s| - |out|) == s {
          TailZero(phrases, 0);
          assert s[0..] == s;
        }
        if AllZero(s) {
          AllZeroEqual(out + Zeros(|s| - |out|), s, out);
        }
      } else {
        FilledUpIff(phrases[1..]);
        SamePrefix(phrases[0], Output(phrases[1..]), Joined(phrases[1..]));
      }
    }
  }

  lemma SamePrefix(p: seq<byte>, more: seq<byte>, rest: seq<byte>)
    requires |more| <= |rest|
    ensures |p + rest| - |p + more| == |rest| - |more|
    ensures (p + more) + Zeros(|rest| - |more|) == p + rest <==> more + Zeros(|rest| - |more|) == rest
  {
    var filled := more + Zeros(|rest| - |more|);
    assert (p + more) + Zeros(|rest| - |more|) == p + filled;
    assert (p + filled)[|p|..] == filled && (p + rest)[|p|..] == rest;
  }

  lemma NothingLong()
    ensures ZeroFromLong([])
  {
  }

  lemma AllZeroEqual(a: seq<byte>, b: seq<byte>, out: seq<byte>)
    requires |a| == |b| && |out| <= |a| && a == out + Zeros(|a| - |out|) && AllZero(out) && AllZero(b)
    ensures a == b
  {
  }

  /** The round trip through the encoder's own file, for every string and every encoding of it: it holds
      if and only if from the first phrase longer than 4096 bytes on the string is zeros. */
  lemma FileRoundTripIff(ops: seq<Op>, input: seq<byte>)
    requires LzwEncoder.Spells(ops, InitialDictionary(), input)
    ensures Decode(Pack(ops), Start(), |input|) == (0, input) <==>
            ZeroFromLong(Phrases(ops, InitialDictionary(), input))
  {
    hide LzwEncoder.Spells, Phrases, Output, Joined, ZeroFromLong, Decode, Pack;
    FileDecodes(ops, input);
    PhrasesJoin(ops, InitialDictionary(), input);
    FilledUpIff(Phrases(ops, InitialDictionary(), input));
  }

  /** So for strings without zero bytes: if and only if no phrase is longer than 4096 bytes. */
  lemma FileRoundTripNoZeros(ops: seq<Op>, input: seq<byte>)
    requires LzwEncoder.Spells(ops, InitialDictionary(), input) && 0 !in input
    ensures Decode(Pack(ops), Start(), |input|) == (0, input) <==>
            NoneTooLong(Phrases(ops, InitialDictionary(), input))
  {
    hide LzwEncoder.Spells, Phrases, Decode, Pack, InitialDictionary;
    FileRoundTripIff(ops, input);
    PhrasesJoin(ops, InitialDictionary(), input);
    LongHasNonzero(Phrases(ops, InitialDictionary(), input));
  }

  lemma LongHasNonzero(phrases: seq<seq<byte>>)
    requires 0 !in Joined(phrases)
    ensures ZeroFromLong(phrases) <==> NoneTooLong(phrases)
  {
    hide Joined;
    forall i | 0 <= i < |phrases| && |phrases[i]| > 4096 ensures !AllZero(phrases[i]) {
      InJoined(phrases, i);
      assert phrases[i][0] in phrases[i];
    }
  }

  lemma {:induction false} InJoined(phrases: seq<seq<byte>>, i: nat)
    requires i < |phrases|
    ensures forall b :: b in phrases[i] ==> b in Joined(phrases)
  {
    if i > 0 {
      InJoined(phrases[1..], i - 1);
    }
  }
}
