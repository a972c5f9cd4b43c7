/** The decoder's table (`LZWState`): strings kept as parent chains in one array of nodes. */
module LzwTable {
  import opened Bytes
  import opened Lzw

  datatype LZWNode = LZWNode(chr: byte, parent: int)

  /** Conversion to a 16-bit signed integer. */
  function ToS16(x: int): int {
    (x + 0x8000) % 0x1_0000 - 0x8000
  }

  /** A parent survives the conversion exactly when it fits in 16 bits with a sign; a 14-bit code
      always does, the later half of the 16-bit codes would not. */
  lemma ParentFits(x: int)
    ensures ToS16(x) == x <==> -32768 <= x < 32768
    ensures 32768 <= x < 65536 ==> ToS16(x) == x - 65536
  {
    if 32768 <= x < 65536 {
      DivModUnique(x + 0x8000, 0x1_0000, 1, x - 0x8000);
    }
  }

  /** Node `i` spells entry `i`: a byte is a root, every later entry is its parent's string and
      one more byte, and its parent comes earlier and is never the clear code. */
  ghost predicate NodeSpells(nodes: seq<LZWNode>, d: Dictionary, i: int)
    requires |d| <= |nodes|
  {
    Live(d, i) ==>
      if i < 256 then nodes[i] == LZWNode(i, -1) && d[i] == [i]
      else
        && 0 <= nodes[i].parent < i && nodes[i].parent != CLEAR
        && d[i] == d[nodes[i].parent] + [nodes[i].chr]
  }

  /** The live nodes spell the dictionary. Nothing is said of node 256, or of nodes left from
      before the last clear. */
  ghost predicate Spells(nodes: seq<LZWNode>, d: Dictionary) {
    && CLEAR < |d| <= |nodes|
    && forall i :: NodeSpells(nodes, d, i)
  }

  lemma SpellsMore(nodes: seq<LZWNode>, d: Dictionary, p: int, c: byte)
    requires Spells(nodes, d) && Live(d, p) && |d| < |nodes|
    ensures Spells(nodes[|d| := LZWNode(c, p)], d + [d[p] + [c]])
  {
    var m, e := nodes[|d| := LZWNode(c, p)], d + [d[p] + [c]];
    forall i ensures NodeSpells(m, e, i) {
      assert NodeSpells(nodes, d, i);
    }
  }

  lemma SpellsInitial(nodes: seq<LZWNode>)
    requires |nodes| > CLEAR && forall i :: 0 <= i < 256 ==> nodes[i] == LZWNode(i, -1)
    ensures Spells(nodes, InitialDictionary())
  {
  }

  /** Entry `i` was made from a shorter one, so its chain is at most `i - 255` long. */
  lemma {:induction false} ChainLength(nodes: seq<LZWNode>, d: Dictionary, i: int)
    requires Spells(nodes, d) && Live(d, i)
    ensures 1 <= |d[i]| <= Max(1, i - 255)
    decreases i
  {
    assert NodeSpells(nodes, d, i);
    if i > CLEAR {
      ChainLength(nodes, d, nodes[i].parent);
    }
  }

  class LZWState {
    const nodes: array<LZWNode>
    var numsyms: int
    var maxsyms: int
    var prevsym: int
    var symsize: int
    var blockmode: bool
    /** The strings the live nodes spell. */
    ghost var dict: Dictionary

    ghost predicate Valid()
      reads this, nodes
    {
      && nodes.Length == MAXSYMS && maxsyms == MAXSYMS && blockmode
      && numsyms == |dict| <= MAXSYMS
      && Spells(nodes[..], dict)
      && symsize >= 0 && WidthFits(numsyms, symsize)
      && GoodTable(Contents())
    }

    ghost function Contents(): Table
      reads this
    {
      Table(dict, prevsym)
    }

    /** The memory before `lzw_init`; its contents are arbitrary. */
    constructor ()
      ensures fresh(nodes) && nodes.Length == MAXSYMS
    {
      nodes := new LZWNode[MAXSYMS];
    }

    /** `lzw_init` */
    method Init(flags: nat)
      requires nodes.Length == MAXSYMS && And(flags, 0x1F) <= 30
      modifies this, nodes
      ensures blockmode == (And(flags, 0x80) != 0)
      ensures maxsyms == Min(Pow2(And(flags, 0x1F)), MAXSYMS)
      ensures numsyms == (if blockmode then 257 else 256) && prevsym == -1 && symsize == 9
      ensures blockmode && maxsyms == MAXSYMS ==> Valid() && Contents() == FreshTable()
    {
      blockmode := And(flags, 0x80) != 0;
      maxsyms := Pow2(And(flags, 0x1F));
      if maxsyms > MAXSYMS { maxsyms := MAXSYMS; }
      for i := 0 to 256
        invariant forall k :: 0 <= k < i ==> nodes[k] == LZWNode(k, -1)
        modifies nodes
      {
        nodes[i] := LZWNode(i, -1);
      }
      numsyms := 256 + if blockmode then 1 else 0;
      prevsym := -1;
      symsize := 9;
      dict := InitialDictionary();
      SpellsInitial(nodes[..]);
      WidthValues();
    }

    /** `lzw_clear`: the node array keeps its old entries. */
    method Clear()
      requires Valid()
      modifies this
      ensures Valid() && Contents() == FreshTable()
    {
      numsyms := 256 + if blockmode then 1 else 0;
      prevsym := -1;
      symsize := 9;
      RootsOf(nodes[..], dict);
      dict := InitialDictionary();
      SpellsInitial(nodes[..]);
      WidthValues();
    }

    /** `lzw_first_byte` */
    method FirstByte(sym: int) returns (b: byte)
      requires Valid() && Live(dict, sym)
      ensures dict[sym] != [] && b == dict[sym][0]
    {
      hide WidthFits;
      var s := sym;
      assert NodeSpells(nodes[..], dict, s);
      ChainLength(nodes[..], dict, s);
      while nodes[s].parent >= 0
        invariant Live(dict, s) && dict[s] != [] && dict[s] <= dict[sym]
        decreases s
      {
        assert NodeSpells(nodes[..], dict, s);
        s := nodes[s].parent;
        ChainLength(nodes[..], dict, s);
      }
      assert NodeSpells(nodes[..], dict, s);
      b := nodes[s].chr;
    }

    /** The counting loop of `lzw_output`. */
    method Length(sym: int) returns (n: nat)
      requires Valid() && Live(dict, sym)
      ensures n == |dict[sym]|
    {
      hide WidthFits;
      n := 0;
      var s := sym;
      while s >= 0
        invariant s == -1 || Live(dict, s)
        invariant n + (if s >= 0 then |dict[s]| else 0) == |dict[sym]|
        decreases s
      {
        assert NodeSpells(nodes[..], dict, s);
        n := n + 1;
        s := nodes[s].parent;
      }
    }

    /** `lzw_output`: the last bytes of the phrase, as many as `buf` takes, in order. */
    method Output(sym: int, buf: array<byte>, bufsz: nat) returns (n: nat)
      requires Valid() && Live(dict, sym) && bufsz <= buf.Length
      modifies buf
      ensures n == Min(|dict[sym]|, bufsz)
      ensures buf[..n] == dict[sym][|dict[sym]| - n..]
      ensures buf[n..] == old(buf[n..])
    {
      hide WidthFits;
      n := Length(sym);
      ghost var phrase := dict[sym];
      if n > bufsz { n := bufsz; }
      var pos, s := n, sym;
      while pos > 0 && s >= 0
        invariant 0 <= pos <= n && n <= |phrase|
        invariant s == -1 || Live(dict, s)
        invariant s >= 0 ==> dict[s] == phrase[..|phrase| - (n - pos)]
        invariant s == -1 ==> n - pos == |phrase|
        invariant forall i :: pos <= i < n ==> buf[i] == phrase[|phrase| - n + i]
        invariant forall i :: n <= i < buf.Length ==> buf[i] == old(buf[i])
        decreases s
      {
        assert NodeSpells(nodes[..], dict, s);
        pos := pos - 1;
        buf[pos] := nodes[s].chr;
        s := nodes[s].parent;
      }
    }

    /** `lzw_next` */
    method Next(sym: nat) returns (r: int)
      requires Valid() && sym != CLEAR && sym < MAXSYMS
      modifies this, nodes
      ensures Valid()
      ensures match Lzw.Next(old(Contents()), sym)
              case None => r == -1 && Contents() == old(Contents())
              case Some(t) => r == 0 && Contents() == t
    {
      if prevsym < 0 {
        if sym >= numsyms { return -1; }
        prevsym := sym;
        return 0;
      }
      var postfix;
      if sym < numsyms {
        postfix := FirstByte(sym);
      } else if sym == numsyms {
        postfix := FirstByte(prevsym);
      } else {
        return -1;
      }
      if numsyms < maxsyms {
        AddEntry(postfix);
      }
      prevsym := sym;
      return 0;
    }

    /** Adding the new entry of `lzw_next`. */
    method AddEntry(postfix: byte)
      requires Valid() && Live(dict, prevsym) && numsyms < maxsyms
      modifies this, nodes
      ensures Valid() && prevsym == old(prevsym)
      ensures dict == old(dict) + [old(dict)[prevsym] + [postfix]]
    {
      hide WidthFits, And, Spells;
      SpellsMore(nodes[..], dict, prevsym, postfix);
      GrowthKeepsWidth(numsyms, symsize);
      nodes[numsyms] := LZWNode(postfix, ToS16(prevsym));
      assert nodes[..] == old(nodes[..])[numsyms := LZWNode(postfix, prevsym)];
      dict := dict + [dict[prevsym] + [postfix]];
      numsyms := numsyms + 1;
      if numsyms < maxsyms && And(numsyms, numsyms - 1) == 0 {
        symsize := symsize + 1;
      }
    }
  }

  lemma RootsOf(nodes: seq<LZWNode>, d: Dictionary)
    requires Spells(nodes, d)
    ensures forall i :: 0 <= i < 256 ==> nodes[i] == LZWNode(i, -1)
  {
    forall i | 0 <= i < 256 ensures nodes[i] == LZWNode(i, -1) {
      assert NodeSpells(nodes, d, i);
    }
  }
}
