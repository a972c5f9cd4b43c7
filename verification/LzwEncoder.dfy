/** The encoder the LZW decoder undoes. Its table runs one entry ahead of the decoder's. */
module LzwEncoder {
  import opened Bytes
  import opened Lzw
  import opened LzwRuns

  /** What an encoder writes: clear codes anywhere, and codes of phrases. */
  datatype Op = Clear | Emit(code: nat)

  /** The encoder's table after sending `code` when `rest` is still to be encoded. */
  ghost function Grown(enc: Dictionary, code: nat, rest: seq<byte>): Dictionary
    requires code < |enc|
  {
    if |enc| < MAXSYMS && rest != [] then enc + [enc[code] + [rest[0]]] else enc
  }

  /** `ops` spell `input` for an encoder whose table is `enc`: any choice of matching entries,
      with clear codes at any places. */
  ghost predicate Spells(ops: seq<Op>, enc: Dictionary, input: seq<byte>) {
    if ops == [] then input == []
    else
      match ops[0]
      case Clear => Spells(ops[1..], InitialDictionary(), input)
      case Emit(c) =>
        && Live(enc, c) && enc[c] <= input
        && var rest := input[|enc[c]|..];
           Spells(ops[1..], Grown(enc, c, rest), rest)
  }

  /** The bits at `pos` hold the codes of `ops`, in the decoder's widths and with its padding
      (whose bits are arbitrary), when `k` codes of the segment have gone before. */
  ghost predicate Carries(data: seq<byte>, pos: nat, k: nat, ops: seq<Op>)
    decreases |ops|
  {
    if ops == [] then true
    else
      var w := WidthAt(k);
      match ops[0]
      case Clear => LsbField(data, pos, w) == CLEAR && Carries(data, pos + w + Padding(w, k + 1), 0, ops[1..])
      case Emit(c) => LsbField(data, pos, w) == c && Carries(data, pos + w, k + 1, ops[1..])
  }

  /** The encoder's table is the decoder's with the entry the decoder cannot complete yet. */
  ghost predicate OneAhead(enc: Dictionary, t: Table, input: seq<byte>) {
    && GoodTable(t) && GoodDictionary(enc)
    && (t.prev == -1 ==> enc == t.dict)
    && (t.prev != -1 && |t.dict| == MAXSYMS ==> enc == t.dict)
    && (t.prev != -1 && |t.dict| < MAXSYMS && input != [] ==> enc == t.dict + [t.dict[t.prev] + [input[0]]])
  }

  lemma GrownGood(enc: Dictionary, code: nat, rest: seq<byte>)
    requires GoodDictionary(enc) && Live(enc, code)
    ensures GoodDictionary(Grown(enc, code, rest))
  {
    var g := Grown(enc, code, rest);
    forall i | Live(g, i) ensures g[i] != [] {
      if i < |enc| { assert Live(enc, i); }
    }
  }

  /** Including the case that the code is the entry the decoder has not made yet: after reading a
      code the decoder has the table the encoder chose from. */
  lemma DecoderCatchesUp(enc: Dictionary, t: Table, input: seq<byte>, c: nat)
    requires OneAhead(enc, t, input) && Live(enc, c) && enc[c] <= input
    ensures c < MAXSYMS && enc[c] != [] && Next(t, c).Some?
    ensures Next(t, c).value == Table(enc, c)
    ensures OneAhead(Grown(enc, c, input[|enc[c]|..]), Next(t, c).value, input[|enc[c]|..])
  {
    assert enc[c] != [] && enc[c][0] == input[0];
    if c < |t.dict| {
      assert Live(t.dict, c) && enc[c] == t.dict[c];
    }
    GrownGood(enc, c, input[|enc[c]|..]);
  }

  // ---------------------------------------------------------------- what reaches the output

  /** The phrases sent, in order. */
  ghost function Phrases(ops: seq<Op>, enc: Dictionary, input: seq<byte>): seq<seq<byte>>
    requires Spells(ops, enc, input)
  {
    if ops == [] then []
    else
      match ops[0]
      case Clear => Phrases(ops[1..], InitialDictionary(), input)
      case Emit(c) => var rest := input[|enc[c]|..]; [enc[c]] + Phrases(ops[1..], Grown(enc, c, rest), rest)
  }

  lemma SpellsCons(c: nat, ops: seq<Op>, enc: Dictionary, input: seq<byte>)
    requires Live(enc, c) && enc[c] <= input
    requires Spells(ops, Grown(enc, c, input[|enc[c]|..]), input[|enc[c]|..])
    ensures Spells([Emit(c)] + ops, enc, input)
    ensures Phrases([Emit(c)] + ops, enc, input) ==
            [enc[c]] + Phrases(ops, Grown(enc, c, input[|enc[c]|..]), input[|enc[c]|..])
  {
    assert ([Emit(c)] + ops)[1..] == ops;
  }

  ghost function Output(phrases: seq<seq<byte>>): seq<byte> {
    if phrases == [] then [] else Clipped(phrases[0]) + Output(phrases[1..])
  }

  ghost function Joined(phrases: seq<seq<byte>>): seq<byte> {
    if phrases == [] then [] else phrases[0] + Joined(phrases[1..])
  }

  lemma {:induction false} PhrasesJoin(ops: seq<Op>, enc: Dictionary, input: seq<byte>)
    requires Spells(ops, enc, input)
    ensures Joined(Phrases(ops, enc, input)) == input
    decreases |ops|
  {
    hide InitialDictionary, Grown;
    if ops != [] {
      match ops[0]
      case Clear => PhrasesJoin(ops[1..], InitialDictionary(), input);
      case Emit(c) =>
        var rest := input[|enc[c]|..];
        PhrasesJoin(ops[1..], Grown(enc, c, rest), rest);
        assert Phrases(ops, enc, input)[1..] == Phrases(ops[1..], Grown(enc, c, rest), rest);
    }
  }

  ghost predicate NoneTooLong(phrases: seq<seq<byte>>) {
    forall i :: 0 <= i < |phrases| ==> |phrases[i]| <= 4096
  }

  /** The machine after the codes of `ops`. */
  ghost function Run(data: seq<byte>, m: Machine, n: nat): (r: Machine)
    requires GoodTable(m.table)
    ensures GoodTable(r.table)
    decreases n
  {
    if n == 0 || Step(data, m).Failed? then m else Run(data, Step(data, m).next, n - 1)
  }

  /** From `m` the decoder writes `out` and is then in `later`. */
  ghost predicate Writes(data: seq<byte>, m: Machine, room: nat, out: seq<byte>, later: Machine)
    requires GoodTable(m.table) && GoodTable(later.table)
  {
    Decode(data, m, room) ==
    if |out| >= room then (0, out[..room])
    else (Decode(data, later, room - |out|).0, out + Decode(data, later, room - |out|).1)
  }

  lemma WritesNothing(data: seq<byte>, m: Machine, room: nat)
    requires GoodTable(m.table)
    ensures Writes(data, m, room, [], m)
  {
    hide Step, GoodTable;
    assert [] + Decode(data, m, room).1 == Decode(data, m, room).1;
  }

  lemma WritesAfterClear(data: seq<byte>, m: Machine, room: nat, out: seq<byte>, later: Machine)
    requires GoodTable(m.table) && GoodTable(later.table) && Step(data, m).Cleared?
    requires Writes(data, Step(data, m).next, room, out, later)
    ensures Writes(data, m, room, out, later)
  {
    hide Step, GoodTable;
  }

  lemma WritesAfterPhrase(data: seq<byte>, m: Machine, room: nat, out: seq<byte>, later: Machine)
    requires GoodTable(m.table) && GoodTable(later.table) && Step(data, m).Emitted?
    requires var first := Clipped(Step(data, m).phrase);
             |first| < room ==> Writes(data, Step(data, m).next, room - |first|, out, later)
    ensures Writes(data, m, room, Clipped(Step(data, m).phrase) + out, later)
  {
    hide Step, GoodTable, Clipped;
    var first, next := Clipped(Step(data, m).phrase), Step(data, m).next;
    if room == 0 {
    } else if |first| >= room {
      assert (first + out)[..room] == first[..room];
    } else if |out| >= room - |first| {
      assert (first + out)[..room] == first + out[..room - |first|];
    } else {
      var rest := Decode(data, later, room - |first| - |out|).1;
      assert first + (out + rest) == first + out + rest;
    }
  }

  /** The decoder writes the clipped phrases one after the other, and then goes on with whatever
      follows the codes. */
  lemma {:induction false} DecodeFollowsOps(data: seq<byte>, m: Machine, ops: seq<Op>, enc: Dictionary,
                                            input: seq<byte>, room: nat)
    requires GoodTable(m.table) && InStep(m) && OneAhead(enc, m.table, input)
    requires Spells(ops, enc, input) && Carries(data, m.pos, m.k, ops)
    ensures Writes(data, m, room, Output(Phrases(ops, enc, input)), Run(data, m, |ops|))
    decreases |ops|
  {
    hide InStep, OneAhead, SymAt, Next, GoodTable, Step, Carries, Writes, Clipped, Grown;
    if ops == [] {
      WritesNothing(data, m, room);
    } else {
      OpStep(data, m, ops, enc, input);
      var next, later := Step(data, m).next, Run(data, m, |ops|);
      match ops[0]
      case Clear =>
        DecodeFollowsOps(data, next, ops[1..], InitialDictionary(), input, room);
        WritesAfterClear(data, m, room, Output(Phrases(ops, enc, input)), later);
      case Emit(c) =>
        var n := |Clipped(enc[c])|;
        var rest := input[|enc[c]|..];
        var more := Phrases(ops[1..], Grown(enc, c, rest), rest);
        if n < room {
          DecodeFollowsOps(data, next, ops[1..], Grown(enc, c, rest), rest, room - n);
        }
        WritesAfterPhrase(data, m, room, Output(more), later);
        assert Phrases(ops, enc, input)[1..] == more;
    }
  }

  /** One code of the encoder is one step of the decoder. */
  lemma {:induction false} OpStep(data: seq<byte>, m: Machine, ops: seq<Op>, enc: Dictionary, input: seq<byte>)
    requires InStep(m) && OneAhead(enc, m.table, input) && ops != []
    requires Spells(ops, enc, input) && Carries(data, m.pos, m.k, ops)
    ensures GoodTable(m.table) && !Step(data, m).Failed? && InStep(Step(data, m).next)
    ensures Carries(data, Step(data, m).next.pos, Step(data, m).next.k, ops[1..])
    ensures ops[0].Clear? ==>
              Step(data, m).Cleared? && OneAhead(InitialDictionary(), Step(data, m).next.table, input)
    ensures ops[0].Emit? ==>
              var c := ops[0].code; var rest := input[|enc[c]|..];
              && Step(data, m) == Emitted(Step(data, m).next, enc[c]) && enc[c] != []
              && OneAhead(Grown(enc, c, rest), Step(data, m).next.table, rest)
  {
    hide Bounded, LsbField, BitsAfter, InStep, Next, Grown, InitialDictionary, WidthOf, Padding;
    StepReads(data, m);
    StepInStep(data, m);
    if ops[0].Emit? {
      DecoderCatchesUp(enc, m.table, input, ops[0].code);
    } else {
      NothingAhead(input);
    }
  }

  lemma StepReads(data: seq<byte>, m: Machine)
    requires InStep(m)
    ensures WidthOf(|m.table.dict|) == WidthAt(m.k) && SymAt(data, m) == LsbField(data, m.pos, WidthAt(m.k))
  {
    hide Bounded, LsbField, BitsAfter;
  }

  lemma NothingAhead(input: seq<byte>)
    ensures OneAhead(InitialDictionary(), FreshTable(), input)
  {
  }

  // ---------------------------------------------------------------- the round trip

  /** Clipping loses bytes exactly when some phrase is longer than the buffer. */
  lemma {:induction false} ClippingLoses(ops: seq<Op>, enc: Dictionary, input: seq<byte>)
    requires Spells(ops, enc, input)
    ensures var phrases := Phrases(ops, enc, input);
            && |Output(phrases)| <= |input|
            && (|Output(phrases)| == |input| <==> NoneTooLong(phrases))
            && (NoneTooLong(phrases) ==> Output(phrases) == input)
    decreases |ops|
  {
    hide InitialDictionary, Grown, NoneTooLong, Output, Clipped;
    if ops == [] {
      NothingSent();
    } else {
      match ops[0]
      case Clear => ClippingLoses(ops[1..], InitialDictionary(), input);
      case Emit(c) =>
        var rest := input[|enc[c]|..];
        ClippingLoses(ops[1..], Grown(enc, c, rest), rest);
        OneMorePhrase(enc[c], Phrases(ops[1..], Grown(enc, c, rest), rest));
        assert input == enc[c] + rest;
    }
  }

  lemma NothingSent()
    ensures Output([]) == [] && NoneTooLong([])
  {
  }

  lemma OneMorePhrase(phrase: seq<byte>, more: seq<seq<byte>>)
    ensures Output([phrase] + more) == Clipped(phrase) + Output(more)
    ensures NoneTooLong([phrase] + more) <==> |phrase| <= 4096 && NoneTooLong(more)
  {
    var all := [phrase] + more;
    assert all[1..] == more;
    assert forall i :: 0 <= i < |more| ==> all[i + 1] == more[i];
  }

  lemma StartsAhead(input: seq<byte>)
    ensures InStep(Start()) && OneAhead(InitialDictionary(), Start().table, input)
  {
    StartInStep();
  }

  /** `data` is an encoding of `input` that the decoder's phrase buffer can hold. */
  ghost predicate IsEncoding(data: seq<byte>, ops: seq<Op>, input: seq<byte>) {
    && Spells(ops, InitialDictionary(), input) && Carries(data, 0, 0, ops)
    && NoneTooLong(Phrases(ops, InitialDictionary(), input))
  }

  /** The round trip: whatever phrases the encoder chose and wherever it put clear codes, the
      decoder returns 0 and the original string, unless a phrase is longer than 4096 bytes. */
  lemma RoundTrip(data: seq<byte>, ops: seq<Op>, input: seq<byte>)
    requires IsEncoding(data, ops, input)
    ensures Decode(data, Start(), |input|) == (0, input)
  {
    CodesSufficeIff(data, ops, input);
  }

  /** ... and exactly then: with a longer phrase the codes run out before the output is full, and
      the decoder takes what follows them in the file for more codes. */
  lemma CodesSufficeIff(data: seq<byte>, ops: seq<Op>, input: seq<byte>)
    requires Spells(ops, InitialDictionary(), input) && Carries(data, 0, 0, ops)
    ensures var out, later := Output(Phrases(ops, InitialDictionary(), input)), Run(data, Start(), |ops|);
            if NoneTooLong(Phrases(ops, InitialDictionary(), input)) then
              out == input && Decode(data, Start(), |input|) == (0, input)
            else
              && |out| < |input|
              && Decode(data, Start(), |input|) ==
                 (Decode(data, later, |input| - |out|).0, out + Decode(data, later, |input| - |out|).1)
  {
    hide InStep, OneAhead, Carries, Decode, Run, Step, Spells, Phrases, Output, NoneTooLong;
    StartsAhead(input);
    DecodeFollowsOps(data, Start(), ops, InitialDictionary(), input, |input|);
    ClippingLoses(ops, InitialDictionary(), input);
    assert input[..|input|] == input;
  }

  // ---------------------------------------------------------------- how long phrases get

  /** Every segment between clear codes has at most `limit` codes; `k` have gone before. */
  ghost predicate ShortSegments(ops: seq<Op>, k: nat, limit: nat) {
    if ops == [] then true
    else
      match ops[0]
      case Clear => ShortSegments(ops[1..], 0, limit)
      case Emit(_) => k + 1 <= limit && ShortSegments(ops[1..], k + 1, limit)
  }

  /** Table of an encoder that has sent `k` codes since the start or a clear. */
  ghost predicate EncoderTable(enc: Dictionary, k: nat) {
    GoodDictionary(enc) && Bounded(enc) && |enc| <= 257 + k
  }

  lemma GrownBounded(enc: Dictionary, k: nat, c: nat, rest: seq<byte>)
    requires EncoderTable(enc, k) && Live(enc, c)
    ensures EncoderTable(Grown(enc, c, rest), k + 1)
    ensures |enc[c]| <= k + 1
  {
    GrownGood(enc, c, rest);
    var g := Grown(enc, c, rest);
    forall i | Live(g, i) ensures |g[i]| <= Max(1, i - 255) {
      if i < |enc| { assert Live(enc, i); }
    }
  }

  /** In segments of at most 4096 codes no phrase is too long. */
  lemma {:induction false} ShortSegmentsSuffice(ops: seq<Op>, enc: Dictionary, k: nat, input: seq<byte>)
    requires Spells(ops, enc, input) && EncoderTable(enc, k) && ShortSegments(ops, k, 4096)
    ensures NoneTooLong(Phrases(ops, enc, input))
    decreases |ops|
  {
    hide EncoderTable, Grown;
    if ops != [] {
      match ops[0]
      case Clear =>
        InitialEncoderTable();
        ShortSegmentsSuffice(ops[1..], InitialDictionary(), 0, input);
      case Emit(c) =>
        var rest := input[|enc[c]|..];
        GrownBounded(enc, k, c, rest);
        ShortSegmentsSuffice(ops[1..], Grown(enc, c, rest), k + 1, rest);
    }
  }

  lemma InitialEncoderTable()
    ensures EncoderTable(InitialDictionary(), 0)
  {
    BoundedInitially();
  }

  /** The round trip with no condition on phrases: at most 4096 codes between clears. */
  lemma RoundTripShortSegments(data: seq<byte>, ops: seq<Op>, input: seq<byte>)
    requires Spells(ops, InitialDictionary(), input) && Carries(data, 0, 0, ops)
    requires ShortSegments(ops, 0, 4096)
    ensures Decode(data, Start(), |input|) == (0, input)
  {
    InitialEncoderTable();
    ShortSegmentsSuffice(ops, InitialDictionary(), 0, input);
    RoundTrip(data, ops, input);
  }
}
