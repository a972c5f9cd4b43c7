/** The encoder as it is usually written, greedy and packing its codes into bytes: nothing the
    round trip asks of an encoder is out of reach. */
module LzwGreedy {
  import opened Bytes
  import opened Lzw
  import opened LzwRuns
  import opened LzwEncoder

  /** An encoder's table: the single bytes are always there. */
  ghost predicate Encodes(enc: Dictionary, k: nat) {
    && GoodDictionary(enc) && |enc| <= SizeAfter(k + 1)
    && forall i :: 0 <= i < 256 ==> enc[i] == [i]
  }

  /** The longest entry below `n` that starts `input`. */
  ghost function LongestMatch(enc: Dictionary, input: seq<byte>, n: nat): (c: nat)
    requires GoodDictionary(enc) && input != [] && 256 <= n <= |enc|
    requires forall i :: 0 <= i < 256 ==> enc[i] == [i]
    ensures Live(enc, c) && c < n && enc[c] <= input
    ensures forall i :: Live(enc, i) && i < n && enc[i] <= input ==> |enc[i]| <= |enc[c]|
    decreases n
  {
    if n == 256 then input[0]
    else
      var c := LongestMatch(enc, input, n - 1);
      if n - 1 != CLEAR && enc[n - 1] <= input && |enc[n - 1]| > |enc[c]| then n - 1 else c
  }

  /** The greedy encoder. `clears` says, step by step, where clear codes go; when it is used up
      there are no more. */
  ghost function Encode(input: seq<byte>, enc: Dictionary, k: nat, clears: seq<bool>): (ops: seq<Op>)
    requires Encodes(enc, k)
    ensures LzwEncoder.Spells(ops, enc, input)
    decreases |input| + |clears|
  {
    if clears != [] && clears[0] then
      [Clear] + Encode(input, InitialDictionary(), 0, clears[1..])
    else if input == [] then []
    else
      var c := LongestMatch(enc, input, |enc|);
      var rest := input[|enc[c]|..];
      GrownEncodes(enc, k, c, rest);
      var ops := Encode(rest, Grown(enc, c, rest), k + 1, if clears == [] then [] else clears[1..]);
      assert ([Emit(c)] + ops)[1..] == ops;
      [Emit(c)] + ops
  }

  lemma GrownEncodes(enc: Dictionary, k: nat, c: nat, rest: seq<byte>)
    requires Encodes(enc, k) && Live(enc, c)
    ensures Encodes(Grown(enc, c, rest), k + 1)
  {
    GrownGood(enc, c, rest);
  }

  lemma InitialEncodes()
    ensures Encodes(InitialDictionary(), 0)
  {
  }

  /** The whole encoder, from an empty table. */
  ghost function Greedy(input: seq<byte>, clears: seq<bool>): (ops: seq<Op>)
    ensures LzwEncoder.Spells(ops, InitialDictionary(), input)
  {
    InitialEncodes();
    Encode(input, InitialDictionary(), 0, clears)
  }
}
