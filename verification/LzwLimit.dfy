/** A string that the 4096-byte phrase buffer of the decoder damages. */
module LzwLimit {
  import opened Bytes
  import opened Lzw
  import opened LzwEncoder
  import opened LzwPack

  const LETTER: byte := 97

  ghost function Letters(n: nat): (s: seq<byte>)
    ensures |s| == n && forall i :: 0 <= i < n ==> s[i] == 97
  {
    seq(n, _ => LETTER)
  }

  /** Length of `n` phrases of 1, 2, ..., n letters. */
  function Total(n: nat): nat {
    if n == 0 then 0 else Total(n - 1) + n
  }

  /** Code number `k` of the run: the letter first, then always the entry just made. */
  function CodeAt(k: nat): nat {
    if k == 0 then LETTER else 256 + k
  }

  /** The codes from number `k` on. */
  ghost function Codes(k: nat, n: nat): (ops: seq<Op>)
    requires k <= n
    decreases n - k
  {
    if k == n then [] else [Emit(CodeAt(k))] + Codes(k + 1, n)
  }

  /** The encoder's table after `k` of these codes. */
  ghost predicate RunTable(enc: Dictionary, k: nat) {
    |enc| == 257 + k && enc[CodeAt(k)] == Letters(k + 1)
  }

  lemma {:induction false} TotalMonotone(k: nat, n: nat)
    requires k < n
    ensures Total(k) + k + 1 <= Total(n)
    ensures k + 1 < n ==> Total(k) + k + 1 < Total(n)
    decreases n
  {
    if k + 1 < n {
      TotalMonotone(k, n - 1);
    }
  }

  lemma RunGrows(enc: Dictionary, k: nat, rest: seq<byte>)
    requires RunTable(enc, k) && 257 + k < MAXSYMS && rest != [] && rest[0] == LETTER
    ensures RunTable(Grown(enc, CodeAt(k), rest), k + 1)
  {
    assert Letters(k + 1) + [LETTER] == Letters(k + 2);
  }

  lemma LettersSplit(m: nat, k: nat)
    requires k <= m
    ensures Letters(k) <= Letters(m) && Letters(m)[k..] == Letters(m - k)
  {
  }

  /** A run of letters is spelled by phrases that grow by one letter each. */
  lemma {:induction false} RunSpells(enc: Dictionary, k: nat, n: nat)
    requires RunTable(enc, k) && k < n && 257 + n < MAXSYMS
    ensures Total(k) < Total(n)
    ensures var ops, input := Codes(k, n), Letters(Total(n) - Total(k));
            && LzwEncoder.Spells(ops, enc, input)
            && |Phrases(ops, enc, input)| == n - k
            && |Phrases(ops, enc, input)[n - k - 1]| == n
    decreases n - k
  {
    hide Letters, Grown, LzwEncoder.Spells, Phrases;
    TotalMonotone(k, n);
    LettersSplit(Total(n) - Total(k), k + 1);
    var input, c := Letters(Total(n) - Total(k)), CodeAt(k);
    var rest := input[k + 1..];
    var grown := Grown(enc, c, rest);
    if k + 1 < n {
      RunGrows(enc, k, rest);
      RunSpells(grown, k + 1, n);
    } else {
      NothingLeft(grown, k + 1);
      assert rest == [];
    }
    SpellsCons(c, Codes(k + 1, n), enc, input);
  }

  lemma NothingLeft(enc: Dictionary, n: nat)
    ensures LzwEncoder.Spells(Codes(n, n), enc, []) && Phrases(Codes(n, n), enc, []) == []
  {
  }

  /** 8394753 letters 'a', sent as 4097 phrases, do not come back. */
  lemma LongRunDamaged()
    ensures var ops, input := Codes(0, 4097), Letters(8394753);
            LzwEncoder.Spells(ops, InitialDictionary(), input) &&
            Decode(Pack(ops), Start(), |input|) != (0, input)
  {
    hide Codes, Letters, Total, Pack, Decode, LzwEncoder.Spells;
    LongRun(4097);
    TotalIs(4097);
    var ops, input := Codes(0, 4097), Letters(8394753);
    FileRoundTripNoZeros(ops, input);
  }

  lemma LongRun(n: nat)
    requires 0 < n && 257 + n < MAXSYMS
    ensures var ops, input := Codes(0, n), Letters(Total(n));
            && LzwEncoder.Spells(ops, InitialDictionary(), input) && 0 !in input
            && (n > 4096 ==> !NoneTooLong(Phrases(ops, InitialDictionary(), input)))
  {
    hide Codes, Total, LzwEncoder.Spells, Phrases;
    assert InitialDictionary()[LETTER] == Letters(1);
    RunSpells(InitialDictionary(), 0, n);
    TotalZero();
  }

  lemma {:induction false} TotalIs(n: nat)
    ensures 2 * Total(n) == n * (n + 1)
  {
    if n > 0 {
      TotalIs(n - 1);
      assert n * (n + 1) == (n - 1) * n + 2 * n;
    }
  }

  lemma TotalZero()
    ensures Total(0) == 0
  {
  }
}
