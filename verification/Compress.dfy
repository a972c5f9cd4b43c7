/** `decompress_compress`: the LZW decoder of StuffIt's classic method 2. */
module Compress {
  import opened Bytes
  import opened UFiles
  import opened LeReader
  import opened Lzw
  import opened LzwTable
  import LzwEncoder

  /** The flag byte of StuffIt streams: 14-bit codes, block mode. */
  const FLAGS := 0x8E

  lemma FlagValues()
    ensures And(FLAGS, 0x80) == 0x80 && And(FLAGS, 0x1F) == 14
  {
    hide And;
    AndBit(142, 128);
    AndBit(71, 64);
    AndBit(35, 32);
    AndBit(17, 16);
    AndSelf(8);
    AndBit(142, 31);
    AndBit(71, 15);
    AndBit(35, 7);
    AndBit(17, 3);
    AndBit(8, 1);
    AndBit(4, 0);
  }

  lemma AndBit(x: nat, y: nat)
    ensures And(x, y) == if x == 0 || y == 0 then 0
                         else (if x % 2 == 1 && y % 2 == 1 then 1 else 0) + 2 * And(x / 2, y / 2)
  {
  }

  /** The padding skip, drained in chunks the bit reader can serve. */
  method SkipBits(br: BrLE2, amount: nat)
    requires br.Valid()
    modifies br, br.uf
    ensures br.Valid() && br.consumed == old(br.consumed) + amount
  {
    var skip := amount;
    while skip > 0
      invariant br.Valid() && 0 <= skip && br.consumed + skip == old(br.consumed) + amount
    {
      var chunk := if skip > 24 then 24 else skip;
      var _ := br.Bits(chunk);
      skip := skip - chunk;
    }
  }

  /** The decoder's objects are in the state `m` of the machine over `data`. */
  ghost predicate Represents(st: LZWState, br: BrLE2, symcounter: int, data: seq<byte>, m: Machine)
    reads st, st.nodes, br, br.uf
  {
    && st.Valid() && br.Valid()
    && br.stream == data && br.consumed == m.pos && symcounter == m.k && st.Contents() == m.table
  }

  /** ... and the next code has been read off the stream. */
  ghost predicate HasRead(st: LZWState, br: BrLE2, symcounter: int, data: seq<byte>, m: Machine)
    reads st, st.nodes, br, br.uf
  {
    && st.Valid() && br.Valid()
    && br.stream == data && br.consumed == m.pos + WidthOf(|m.table.dict|)
    && symcounter == m.k + 1 && st.Contents() == m.table
  }

  method ReadCode(st: LZWState, br: BrLE2, symcounter: nat, ghost data: seq<byte>, ghost m: Machine)
    returns (sym: nat)
    requires Represents(st, br, symcounter, data, m)
    modifies br, br.uf
    ensures HasRead(st, br, symcounter + 1, data, m) && GoodTable(m.table) && st.blockmode
    ensures sym == SymAt(data, m)
  {
    WidthUnique(st.numsyms, st.symsize);
    sym := br.Bits(st.symsize);
  }

  lemma ClearStep(data: seq<byte>, m: Machine)
    requires GoodTable(m.table) && SymAt(data, m) == CLEAR
    ensures var w := WidthOf(|m.table.dict|);
            Step(data, m) == Cleared(Machine(m.pos + w + Padding(w, m.k + 1), 0, FreshTable()))
  {
  }

  /** The branch of the main loop for the clear code: skip to the end of the group of eight
      codes, in chunks the bit reader can serve, and empty the table. */
  method ClearTable(st: LZWState, br: BrLE2, symcounter: nat, ghost data: seq<byte>, ghost m: Machine)
    requires HasRead(st, br, symcounter, data, m) && GoodTable(m.table) && SymAt(data, m) == CLEAR
    modifies st, br, br.uf
    ensures Step(data, m).Cleared? && Represents(st, br, 0, data, Step(data, m).next)
  {
    hide WidthFits, Spells, LsbField, WidthOf, SymAt, Step;
    ClearStep(data, m);
    WidthUnique(st.numsyms, st.symsize);
    var symbolsize := st.symsize;
    if symcounter % 8 != 0 {
      SkipBits(br, symbolsize * (8 - symcounter % 8));
    }
    st.Clear();
  }

  /** The branch for every other code: the table takes it in and its phrase goes to `strbuf`. */
  method DataCode(st: LZWState, br: BrLE2, sym: nat, strbuf: array<byte>, ghost symcounter: nat,
                  ghost data: seq<byte>, ghost m: Machine)
    returns (r: int, n: nat)
    requires HasRead(st, br, symcounter, data, m) && GoodTable(m.table)
    requires sym == SymAt(data, m) && sym != CLEAR && strbuf.Length == BUFSIZE
    modifies st, st.nodes, strbuf
    ensures match Step(data, m)
            case Failed => r != 0
            case Cleared(_) => false
            case Emitted(next, phrase) =>
              r == 0 && Represents(st, br, symcounter, data, next) &&
              n <= strbuf.Length && strbuf[..n] == Clipped(phrase)
  {
    hide WidthFits, Spells, LsbField, WidthOf, SymAt, LzwTable.LZWState.Valid;
    n := 0;
    r := st.Next(sym);
    if r != 0 {
      return;
    }
    ghost var phrase := st.dict[st.prevsym];
    n := st.Output(st.prevsym, strbuf, BUFSIZE);
    assert strbuf[..n] == Clipped(phrase);
  }

  /** `out` with `chunk` written at `pos`. */
  ghost function Overlay(out: seq<byte>, pos: nat, chunk: seq<byte>): seq<byte>
    requires pos + |chunk| <= |out|
  {
    out[..pos] + chunk + out[pos + |chunk|..]
  }

  /** Copying a phrase to the output, no more than fits. */
  method CopyPhrase(outbuf: array<byte>, outpos: nat, length: nat, strbuf: array<byte>, count: nat)
    returns (n: nat)
    requires outpos <= length <= outbuf.Length && count <= strbuf.Length && outbuf != strbuf
    modifies outbuf
    ensures n == Min(count, length - outpos)
    ensures outbuf[..] == Overlay(old(outbuf[..]), outpos, strbuf[..count][..n])
  {
    n := count;
    if outpos + n > length { n := length - outpos; }
    for i := 0 to n
      invariant forall k :: 0 <= k < i ==> outbuf[outpos + k] == strbuf[k]
      invariant forall k :: 0 <= k < outpos ==> outbuf[k] == old(outbuf[k])
      invariant forall k :: outpos + n <= k < outbuf.Length ==> outbuf[k] == old(outbuf[k])
    {
      outbuf[outpos + i] := strbuf[i];
    }
    assert strbuf[..count][..n] == strbuf[..n];
  }

  lemma ClearAdvances(data: seq<byte>, m: Machine)
    requires GoodTable(m.table) && Step(data, m).Cleared?
    ensures m.pos < 8 * |data| && m.pos < Step(data, m).next.pos
  {
    ClearInsideFile(data, m);
  }

  /** So much of the output is written: what is still to come is what the machine decodes from
      `m`, and the bytes behind `outpos` are as they were. */
  ghost predicate Progress(out: seq<byte>, before: seq<byte>, outpos: nat, data: seq<byte>, m: Machine, length: nat) {
    && GoodTable(m.table) && outpos <= length <= |out| == |before| && out[outpos..] == before[outpos..]
    && var whole, rest := Decode(data, Start(), length), Decode(data, m, length - outpos);
       whole.0 == rest.0 && whole.1 == out[..outpos] + rest.1
  }

  /** The contract of the decoder. */
  ghost predicate Decoded(out: seq<byte>, before: seq<byte>, data: seq<byte>, length: nat, rc: int) {
    var (code, bytes) := Decode(data, Start(), length);
    rc == code && |out| == |before| && bytes <= out && out[|bytes|..] == before[|bytes|..]
  }

  lemma ProgressStarts(out: seq<byte>, data: seq<byte>, length: nat)
    requires length <= |out|
    ensures Progress(out, out, 0, data, Start(), length)
  {
    hide Decode;
    assert out[..0] == [];
  }

  lemma ProgressOnClear(out: seq<byte>, before: seq<byte>, outpos: nat, data: seq<byte>, m: Machine, length: nat)
    requires GoodTable(m.table) && Progress(out, before, outpos, data, m, length)
    requires outpos < length && Step(data, m).Cleared?
    ensures Progress(out, before, outpos, data, Step(data, m).next, length)
    ensures GoodTable(Step(data, m).next.table)
    ensures m.pos < 8 * |data| && m.pos < Step(data, m).next.pos
  {
    hide Step, GoodTable;
    ClearAdvances(data, m);
    StepKeepsGood(data, m);
  }

  lemma StepKeepsGood(data: seq<byte>, m: Machine)
    requires GoodTable(m.table) && !Step(data, m).Failed?
    ensures GoodTable(Step(data, m).next.table)
    ensures Step(data, m).Emitted? ==> Step(data, m).phrase != []
  {
  }

  lemma DecodeEmitted(data: seq<byte>, m: Machine, room: nat, n: nat)
    requires GoodTable(m.table) && Step(data, m).Emitted? && room > 0
    requires n == Min(|Clipped(Step(data, m).phrase)|, room)
    ensures var later := Decode(data, Step(data, m).next, room - n);
            Decode(data, m, room) == (later.0, Clipped(Step(data, m).phrase)[..n] + later.1)
  {
    hide Step, GoodTable, Clipped;
    var chunk := Clipped(Step(data, m).phrase);
    if |chunk| >= room {
      assert chunk[..n] + [] == chunk[..n];
    } else {
      assert chunk[..n] == chunk;
    }
  }

  lemma ProgressOnPhrase(out: seq<byte>, before: seq<byte>, outpos: nat, n: nat,
                         data: seq<byte>, m: Machine, length: nat)
    requires GoodTable(m.table) && Progress(out, before, outpos, data, m, length)
    requires outpos < length && Step(data, m).Emitted?
    requires n == Min(|Clipped(Step(data, m).phrase)|, length - outpos)
    requires outpos <= length <= |out|
    ensures Progress(Overlay(out, outpos, Clipped(Step(data, m).phrase)[..n]), before, outpos + n,
                     data, Step(data, m).next, length)
    ensures n > 0 && GoodTable(Step(data, m).next.table)
  {
    hide Step, GoodTable, Decode, Clipped;
    StepKeepsGood(data, m);
    var next, chunk := Step(data, m).next, Clipped(Step(data, m).phrase);
    var room := length - outpos;
    var later := Decode(data, next, room - n);
    var out' := Overlay(out, outpos, chunk[..n]);
    DecodeEmitted(data, m, room, n);
    assert out'[..outpos + n] == out[..outpos] + chunk[..n];
    assert out'[outpos + n..] == out[outpos..][n..] == before[outpos..][n..] == before[outpos + n..];
  }

  lemma ProgressFails(out: seq<byte>, before: seq<byte>, outpos: nat, data: seq<byte>, m: Machine, length: nat)
    requires GoodTable(m.table) && Progress(out, before, outpos, data, m, length)
    requires outpos < length && Step(data, m).Failed?
    ensures Decoded(out, before, data, length, -1)
  {
    hide Step, GoodTable;
    assert out[..outpos] + [] == out[..outpos];
  }

  lemma ProgressEnds(out: seq<byte>, before: seq<byte>, data: seq<byte>, m: Machine, length: nat)
    requires Progress(out, before, length, data, m, length)
    ensures Decoded(out, before, data, length, 0)
  {
    hide Step, GoodTable;
    assert out[..length] + [] == out[..length];
  }

  /** The decoder's set-up: a table for the flags 0x8E and a bit reader on the file. */
  method Open(uf: UFile) returns (st: LZWState, br: BrLE2)
    ensures fresh(st) && fresh(st.nodes) && fresh(br) && br.uf == uf
    ensures Represents(st, br, 0, uf.Remaining(), Start())
  {
    st := new LZWState();
    FlagValues();
    WidthValues();
    st.Init(FLAGS);
    br := new BrLE2(uf);
  }

  /** The main loop. */
  method Run(uf: UFile, outbuf: array<byte>, length: nat) returns (rc: int)
    requires length <= outbuf.Length
    modifies uf, outbuf
    ensures Decoded(outbuf[..], old(outbuf[..]), old(uf.Remaining()), length, rc)
  {
    hide Represents, HasRead, Step, Progress, Decoded, GoodTable, Clipped, Overlay, FreshTable, Decode, SymAt;
    ghost var data, before := uf.Remaining(), outbuf[..];
    var st, br := Open(uf);
    var strbuf := new byte[BUFSIZE];
    var outpos: nat, symcounter: nat := 0, 0;
    ghost var m := Start();
    ProgressStarts(before, data, length);
    while outpos < length
      invariant outpos <= length && GoodTable(m.table)
      invariant Represents(st, br, symcounter, data, m)
      invariant Progress(outbuf[..], before, outpos, data, m, length)
      decreases length - outpos, 8 * |data| - m.pos
    {
      ghost var step, out := Step(data, m), outbuf[..];
      var sym := ReadCode(st, br, symcounter, data, m);
      symcounter := symcounter + 1;
      if sym == 256 && st.blockmode {
        ClearTable(st, br, symcounter, data, m);
        ProgressOnClear(out, before, outpos, data, m, length);
        symcounter := 0;
        m := step.next;
        continue;
      }
      var r, n := DataCode(st, br, sym, strbuf, symcounter, data, m);
      if r != 0 {
        ProgressFails(out, before, outpos, data, m, length);
        return -1;
      }
      n := CopyPhrase(outbuf, outpos, length, strbuf, n);
      ProgressOnPhrase(out, before, outpos, n, data, m, length);
      outpos := outpos + n;
      m := step.next;
    }
    ProgressEnds(outbuf[..], before, data, m, length);
    return 0;
  }

  lemma RestoresInput(out: seq<byte>, before: seq<byte>, data: seq<byte>, length: nat, rc: int)
    requires Decoded(out, before, data, length, rc) && length <= |out|
    ensures forall ops, input :: LzwEncoder.IsEncoding(data, ops, input) && |input| == length ==>
                                 rc == 0 && out[..length] == input
  {
    hide LzwEncoder.IsEncoding, Decode;
    forall ops, input | LzwEncoder.IsEncoding(data, ops, input) && |input| == length
      ensures rc == 0 && out[..length] == input
    {
      LzwEncoder.RoundTrip(data, ops, input);
    }
  }

  /** `decompress_compress`: the outcome is that of the machine, and an encoding comes back as the
      string it was made from. */
  method Decompress(uf: UFile, outbuf: array<byte>, length: nat) returns (rc: int)
    requires length <= outbuf.Length
    modifies uf, outbuf
    ensures Decoded(outbuf[..], old(outbuf[..]), old(uf.Remaining()), length, rc)
    ensures forall ops, input :: LzwEncoder.IsEncoding(old(uf.Remaining()), ops, input) && |input| == length ==>
                                 rc == 0 && outbuf[..length] == input
  {
    rc := Run(uf, outbuf, length);
    RestoresInput(outbuf[..], old(outbuf[..]), old(uf.Remaining()), length, rc);
  }
}
