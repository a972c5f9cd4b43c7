/** What the LZW decoder means: a dictionary of byte strings, a code width that follows the
    size of the dictionary, and a machine that reads codes from a bit stream. */
module Lzw {
  import opened Wrappers
  import opened Bytes

  /** `1 << 14`: the table size under the StuffIt flags 0x8E. */
  const MAXSYMS := 16384
  /** The code that clears the table in block mode. */
  const CLEAR := 256
  /** `sizeof(strbuf)` */
  const BUFSIZE := 4096

  type Dictionary = seq<seq<byte>>

  /** The 256 single bytes, and a place held for the clear code. */
  ghost function InitialDictionary(): (d: Dictionary)
    ensures |d| == CLEAR + 1
    ensures forall i :: 0 <= i < 256 ==> d[i] == [i]
  {
    var bytes: Dictionary := seq(256, i requires 0 <= i < 256 => [i]);
    bytes + [[]]
  }

  ghost predicate Live(d: Dictionary, sym: int) {
    0 <= sym < |d| && sym != CLEAR
  }

  ghost predicate GoodDictionary(d: Dictionary) {
    && CLEAR < |d| <= MAXSYMS
    && forall i :: Live(d, i) ==> d[i] != []
  }

  // ---------------------------------------------------------------- code width

  /** The width `w` belongs to a table of `n` entries: `n` needs exactly `w` bits, except that
      the full table keeps its last width. */
  ghost predicate WidthFits(n: nat, w: nat) {
    && 9 <= w <= 14 && Pow2(w - 1) <= n
    && (n < Pow2(w) || (w == 14 && n == MAXSYMS))
  }

  function WidthOf(n: nat): (w: nat)
    ensures 9 <= w <= 14
  {
    if n < 512 then 9 else if n < 1024 then 10 else if n < 2048 then 11
    else if n < 4096 then 12 else if n < 8192 then 13 else 14
  }

  lemma WidthValues()
    ensures Pow2(8) == 256 && Pow2(9) == 512 && Pow2(10) == 1024 && Pow2(11) == 2048
    ensures Pow2(12) == 4096 && Pow2(13) == 8192 && Pow2(14) == 16384
  {
    assert Pow2(8) == 256;
    assert Pow2(11) == 8 * Pow2(8);
    assert Pow2(14) == 8 * Pow2(11);
  }

  lemma WidthUnique(n: nat, w: nat)
    requires CLEAR < n <= MAXSYMS
    ensures WidthFits(n, w) <==> w == WidthOf(n)
  {
    WidthValues();
    if w < 9 || w > 14 {
    } else if w == 9 {} else if w == 10 {} else if w == 11 {} else if w == 12 {} else if w == 13 {} else {}
  }

  lemma NextPower(w: nat)
    requires w > 0
    ensures Pow2(w) == 2 * Pow2(w - 1)
  {
  }

  /** The test `(numsyms & (numsyms - 1)) == 0` after an entry is added grows the width exactly
      when it has to. */
  lemma GrowthKeepsWidth(n: nat, w: nat)
    requires CLEAR < n < MAXSYMS && WidthFits(n, w)
    ensures WidthFits(n + 1, if n + 1 < MAXSYMS && And(n + 1, n) == 0 then w + 1 else w)
  {
    hide And, Pow2;
    WidthValues();
    NextPower(w);
    AndPredecessor(n + 1);
    if n + 1 == Pow2(w) {
      assert And(n + 1, n) == 0;
      if w == 14 { assert n + 1 == MAXSYMS; }
    } else if And(n + 1, n) == 0 {
      var k: nat :| n + 1 == Pow2(k);
      if k < w { Pow2Monotone(k, w - 1); } else { Pow2Distinct(w, k); }
      assert false;
    }
  }

  // ---------------------------------------------------------------- one code

  /** The decoder's table and the code it read last (-1 after a start or a clear). */
  datatype Table = Table(dict: Dictionary, prev: int)

  ghost predicate GoodTable(t: Table) {
    GoodDictionary(t.dict) && (t.prev == -1 || Live(t.dict, t.prev))
  }

  ghost function FreshTable(): (t: Table)
    ensures GoodTable(t)
  {
    Table(InitialDictionary(), -1)
  }

  /** What one data code does: an unknown code fails; otherwise the phrase before it, followed
      by the first byte of this one, becomes a new entry while there is room. */
  ghost function Next(t: Table, sym: nat): (r: Option<Table>)
    requires GoodTable(t) && sym != CLEAR && sym < MAXSYMS
    ensures r.Some? ==> GoodTable(r.value) && r.value.prev == sym
    ensures r.Some? ==> t.dict <= r.value.dict
  {
    if t.prev < 0 then
      if sym < |t.dict| then Some(Table(t.dict, sym)) else None
    else if sym > |t.dict| then None
    else
      var first := if sym < |t.dict| then t.dict[sym][0] else t.dict[t.prev][0];
      if |t.dict| < MAXSYMS then Some(Table(t.dict + [t.dict[t.prev] + [first]], sym))
      else Some(Table(t.dict, sym))
  }

  /** What one data code means, without the two cases of the code: the table keeps its strings; from the
      second code on, while there is room, it gets the previous phrase followed by the first byte of this
      one, and nothing else. A code fails if it is neither an entry nor the entry about to be made. */
  lemma NextAdds(t: Table, sym: nat)
    requires GoodTable(t) && sym != 256 && sym < MAXSYMS
    ensures Next(t, sym).None? <==> sym > |t.dict| || (sym == |t.dict| && t.prev == -1)
    ensures Next(t, sym).Some? ==>
              var u := Next(t, sym).value;
              && u.prev == sym && sym < |u.dict| && (sym < |t.dict| || |t.dict| < 16384)
              && u.dict == if t.prev != -1 && |t.dict| < 16384 then t.dict + [t.dict[t.prev] + [u.dict[sym][0]]]
                           else t.dict
  {
    assert t.prev != -1 ==> t.dict[t.prev] != [];
  }

  /** What reaches the output of a phrase: its last `BUFSIZE` bytes. */
  ghost function Clipped(phrase: seq<byte>): (r: seq<byte>)
    ensures |r| == Min(|phrase|, BUFSIZE)
    ensures |phrase| <= BUFSIZE ==> r == phrase
  {
    if |phrase| <= BUFSIZE then phrase else phrase[|phrase| - BUFSIZE..]
  }

  // ---------------------------------------------------------------- the machine

  /** Bits skipped after a clear code that was the `k`-th code of its segment. */
  function Padding(w: nat, k: nat): nat {
    if k % 8 == 0 then 0 else w * (8 - k % 8)
  }

  /** The decoder between two codes: the bit position, how many codes it has read since the
      start or the last clear, and its table. */
  datatype Machine = Machine(pos: nat, k: nat, table: Table)

  datatype Outcome = Cleared(next: Machine) | Emitted(next: Machine, phrase: seq<byte>) | Failed

  ghost function Start(): Machine {
    Machine(0, 0, FreshTable())
  }

  ghost function SymAt(data: seq<byte>, m: Machine): (sym: nat)
    ensures sym < MAXSYMS
  {
    var w := WidthOf(|m.table.dict|);
    LsbFieldBound(data, m.pos, w);
    Pow2Monotone(w, 14);
    WidthValues();
    LsbField(data, m.pos, w)
  }

  ghost function Step(data: seq<byte>, m: Machine): (r: Outcome)
    requires GoodTable(m.table)
    ensures !r.Failed? ==> GoodTable(r.next.table)
    ensures r.Emitted? ==> r.phrase != []
  {
    var w, sym := WidthOf(|m.table.dict|), SymAt(data, m);
    if sym == CLEAR then Cleared(Machine(m.pos + w + Padding(w, m.k + 1), 0, FreshTable()))
    else
      match Next(m.table, sym)
      case None => Failed
      case Some(t) =>
        NextHasPhrase(m.table, sym);
        Emitted(Machine(m.pos + w, m.k + 1, t), t.dict[sym])
  }

  lemma NextHasPhrase(t: Table, sym: nat)
    requires GoodTable(t) && sym != CLEAR && sym < MAXSYMS && Next(t, sym).Some?
    ensures sym < |Next(t, sym).value.dict|
  {
  }

  /** Past the end of the file only zeros are read, and a zero is no clear code. */
  lemma {:induction false} ZerosPastEnd(data: seq<byte>, pos: nat, n: nat)
    requires pos >= 8 * |data|
    ensures LsbField(data, pos, n) == 0
    decreases n
  {
    if n > 0 {
      ZerosPastEnd(data, pos + 1, n - 1);
      assert ByteAt(data, pos / 8) == 0;
      ZeroBit(pos % 8);
    }
  }

  lemma ZeroBit(k: nat)
    ensures Bit(0, k) == 0
  {
  }

  lemma ClearInsideFile(data: seq<byte>, m: Machine)
    requires SymAt(data, m) == CLEAR
    ensures m.pos < 8 * |data|
  {
    if m.pos >= 8 * |data| {
      ZerosPastEnd(data, m.pos, WidthOf(|m.table.dict|));
    }
  }

  /** The result code and the bytes written when `room` bytes of output are wanted. */
  ghost function Decode(data: seq<byte>, m: Machine, room: nat): (r: (int, seq<byte>))
    requires GoodTable(m.table)
    ensures r.0 == 0 || r.0 == -1
    ensures |r.1| <= room && (r.0 == 0 <==> |r.1| == room)
    decreases room, 8 * |data| - m.pos
  {
    if room == 0 then (0, [])
    else
      match Step(data, m)
      case Failed => (-1, [])
      case Cleared(next) =>
        ClearInsideFile(data, m);
        Decode(data, next, room)
      case Emitted(next, phrase) =>
        var out := Clipped(phrase);
        if |out| >= room then (0, out[..room])
        else
          var rest := Decode(data, next, room - |out|);
          (rest.0, out + rest.1)
  }
}
