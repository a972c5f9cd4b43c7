/** The wildcard matcher of doctest's filters (`wildcmp`), proved equivalent to the
    recursive meaning of `*` and `?`. */
module Glob {
  /** A character of a C string: any byte but the terminating NUL. */
  type CChar = c: int | 1 <= c < 256 witness 1
  type CString = seq<CChar>

  const STAR := 42
  const QUESTION := 63

  /** What reading through a pointer into `s` yields; the NUL at the end is 0. */
  function At(s: CString, i: nat): int
    requires i <= |s|
  {
    if i < |s| then s[i] else 0
  }

  /** `tolower` in the C locale. */
  function ToLower(c: int): int {
    if 'A' as int <= c <= 'Z' as int then c + 32 else c
  }

  predicate SameChar(w: int, c: int, caseSensitive: bool) {
    if caseSensitive then w == c else ToLower(w) == ToLower(c)
  }

  predicate CharMatches(w: int, c: int, caseSensitive: bool) {
    SameChar(w, c, caseSensitive) || w == QUESTION
  }

  /** What a mask means: `*` stands for any string, `?` for any one character. */
  predicate Matches(s: CString, mask: CString, caseSensitive: bool)
    decreases |s| + |mask|
  {
    if mask == [] then s == []
    else if mask[0] == STAR then
      Matches(s, mask[1..], caseSensitive) || (s != [] && Matches(s[1..], mask, caseSensitive))
    else
      s != [] && CharMatches(mask[0], s[0], caseSensitive) && Matches(s[1..], mask[1..], caseSensitive)
  }

  /** `q` has no star and describes `s` character by character. */
  ghost predicate Aligned(s: CString, q: CString, caseSensitive: bool) {
    |s| == |q| && forall i :: 0 <= i < |q| ==> q[i] != STAR && CharMatches(q[i], s[i], caseSensitive)
  }

  /** A star-free piece of the mask consumes exactly its own length. */
  lemma {:induction false} MatchesPiece(s: CString, q: CString, rest: CString, cs: bool)
    requires forall i :: 0 <= i < |q| ==> q[i] != STAR
    ensures Matches(s, q + rest, cs) <==>
            |q| <= |s| && Aligned(s[..|q|], q, cs) && Matches(s[|q|..], rest, cs)
    decreases |q|
  {
    if q == [] {
      assert q + rest == rest && s[0..] == s;
    } else {
      assert (q + rest)[1..] == q[1..] + rest;
      if s != [] {
        MatchesPiece(s[1..], q[1..], rest, cs);
        if |q| <= |s| {
          assert s[1..][|q| - 1..] == s[|q|..];
          assert s[1..][..|q| - 1] == s[..|q|][1..];
          assert Aligned(s[..|q|], q, cs) <==>
                 CharMatches(q[0], s[0], cs) && Aligned(s[..|q|][1..], q[1..], cs) by {
            if CharMatches(q[0], s[0], cs) && Aligned(s[..|q|][1..], q[1..], cs) {
              forall i | 0 <= i < |q|
                ensures q[i] != STAR && CharMatches(q[i], s[..|q|][i], cs)
              {
                if i > 0 {
                  assert q[i] == q[1..][i - 1] && s[..|q|][i] == s[..|q|][1..][i - 1];
                }
              }
            }
          }
        }
      }
    }
  }

  /** A leading star may absorb any prefix. */
  lemma {:induction false} StarAbsorbs(s: CString, k: nat, mask: CString, cs: bool)
    requires k <= |s| && mask != [] && mask[0] == STAR
    requires Matches(s[k..], mask, cs)
    ensures Matches(s, mask, cs)
    decreases k
  {
    if k == 0 {
      assert s[0..] == s;
    } else {
      assert s[1..][k - 1..] == s[k..];
      StarAbsorbs(s[1..], k - 1, mask, cs);
    }
  }

  /** ... and what it absorbs is some prefix. */
  lemma {:induction false} StarSplits(s: CString, rest: CString, cs: bool) returns (k: nat)
    requires Matches(s, [STAR] + rest, cs)
    ensures k <= |s| && Matches(s[k..], rest, cs)
    decreases |s|
  {
    assert ([STAR] + rest)[1..] == rest;
    if Matches(s, rest, cs) {
      k := 0;
      assert s[0..] == s;
    } else {
      var m := StarSplits(s[1..], rest, cs);
      k := m + 1;
      assert s[1..][m..] == s[k..];
    }
  }

  /** Remembering only the last star loses no match: once the piece between two stars
      has been placed at the earliest spot, everything before the second star is settled. */
  lemma LastStarSuffices(s: CString, q: CString, rest: CString, cs: bool)
    requires |q| <= |s| && Aligned(s[..|q|], q, cs)
    ensures Matches(s, [STAR] + (q + ([STAR] + rest)), cs) <==> Matches(s[|q|..], [STAR] + rest, cs)
  {
    var tail := [STAR] + rest;
    var whole := [STAR] + (q + tail);
    assert whole[1..] == q + tail;
    if Matches(s, whole, cs) {
      var k := StarSplits(s, q + tail, cs);
      MatchesPiece(s[k..], q, tail, cs);
      assert s[k..][|q|..] == s[|q|..][k..];
      StarAbsorbs(s[|q|..], k, tail, cs);
    }
    if Matches(s[|q|..], tail, cs) {
      MatchesPiece(s, q, tail, cs);
    }
  }

  // ---------------------------------------------------------------- the meaning in character codes

  /** A letter and the same letter in the other case. */
  ghost predicate OtherCase(m: int, c: int) {
    (65 <= m <= 90 && c == m + 32) || (97 <= m <= 122 && c == m - 32)
  }

  /** What one character of a mask, other than 42, stands for: 63 for any character, any other for itself
      and, ignoring case, for the same letter in the other case. */
  ghost predicate Accepts(m: int, c: int, cs: bool) {
    m == 63 || m == c || (!cs && OtherCase(m, c))
  }

  lemma AcceptsIff(m: int, c: CChar, cs: bool)
    ensures CharMatches(m, c, cs) <==> Accepts(m, c, cs)
  {
  }

  /** The same meaning without recursion on the text: the text splits into one piece for each
      mask character, a star taking any piece and every other character a single match. */
  ghost predicate Denotes(pieces: seq<CString>, mask: CString, cs: bool) {
    |pieces| == |mask| &&
    forall i :: 0 <= i < |mask| && mask[i] != 42 ==> |pieces[i]| == 1 && Accepts(mask[i], pieces[i][0], cs)
  }

  ghost function Joined(pieces: seq<CString>): CString {
    if pieces == [] then [] else pieces[0] + Joined(pieces[1..])
  }

  lemma {:induction false} MatchGivesPieces(s: CString, mask: CString, cs: bool) returns (pieces: seq<CString>)
    requires Matches(s, mask, cs)
    ensures Denotes(pieces, mask, cs) && Joined(pieces) == s
    decreases |s| + |mask|
  {
    if mask == [] {
      pieces := [];
    } else if mask[0] == STAR && !Matches(s, mask[1..], cs) {
      var more := MatchGivesPieces(s[1..], mask, cs);
      pieces := [[s[0]] + more[0]] + more[1..];
      assert Joined(pieces) == [s[0]] + more[0] + Joined(more[1..]);
    } else {
      var k := if mask[0] == STAR then 0 else 1;
      if k == 1 { AcceptsIff(mask[0], s[0], cs); }
      var more := MatchGivesPieces(s[k..], mask[1..], cs);
      pieces := [s[..k]] + more;
      assert forall i :: 0 < i < |mask| ==> mask[i] == mask[1..][i - 1];
    }
  }

  lemma {:induction false} PiecesGiveMatch(pieces: seq<CString>, mask: CString, cs: bool)
    requires Denotes(pieces, mask, cs)
    ensures Matches(Joined(pieces), mask, cs)
  {
    if mask != [] {
      assert forall i :: 0 <= i < |mask| - 1 ==> mask[1..][i] == mask[i + 1] && pieces[1..][i] == pieces[i + 1];
      PiecesGiveMatch(pieces[1..], mask[1..], cs);
      var s, n := Joined(pieces), |pieces[0]|;
      assert s[n..] == Joined(pieces[1..]);
      if mask[0] != STAR { AcceptsIff(mask[0], s[0], cs); }
      if mask[0] == STAR {
        assert Matches(s[n..], mask, cs);
        StarAbsorbs(s, n, mask, cs);
      }
    }
  }

  /** The recursive definition and the declarative one agree. */
  lemma MeaningOfMask(s: CString, mask: CString, cs: bool)
    ensures Matches(s, mask, cs) <==>
            exists pieces :: Denotes(pieces, mask, cs) && Joined(pieces) == s
  {
    if Matches(s, mask, cs) {
      var pieces := MatchGivesPieces(s, mask, cs);
    }
    forall pieces | Denotes(pieces, mask, cs) && Joined(pieces) == s
      ensures Matches(s, mask, cs)
    {
      PiecesGiveMatch(pieces, mask, cs);
    }
  }

  /** A mask without wildcards matches the text that has its characters, and, ignoring case, those that
      differ from it in the case of letters only. */
  ghost predicate SameText(s: CString, mask: CString, cs: bool) {
    |s| == |mask| && forall i :: 0 <= i < |s| ==> mask[i] == s[i] || (!cs && OtherCase(mask[i], s[i]))
  }

  lemma PlainMask(s: CString, mask: CString, cs: bool)
    requires forall i :: 0 <= i < |mask| ==> mask[i] != 42 && mask[i] != 63
    ensures Matches(s, mask, cs) <==> SameText(s, mask, cs)
  {
    assert mask + [] == mask;
    MatchesPiece(s, mask, [], cs);
    if |s| == |mask| {
      assert s[..|mask|] == s && s[|mask|..] == [];
      forall i | 0 <= i < |s|
        ensures CharMatches(mask[i], s[i], cs) <==> mask[i] == s[i] || (!cs && OtherCase(mask[i], s[i]))
      {
        AcceptsIff(mask[i], s[i], cs);
      }
    }
  }

  /** `t` is `s` with the letters 65 to 90 replaced by 97 to 122. */
  ghost predicate IsLowered(s: CString, t: CString) {
    |t| == |s| && forall i :: 0 <= i < |s| ==> t[i] == if 65 <= s[i] <= 90 then s[i] + 32 else s[i]
  }

  /** Ignoring case is matching the lower-cased text against the lower-cased mask. */
  lemma {:induction false} IgnoringCase(s: CString, mask: CString, s': CString, mask': CString)
    requires IsLowered(s, s') && IsLowered(mask, mask')
    ensures Matches(s, mask, false) <==> Matches(s', mask', true)
    decreases |s| + |mask|
  {
    if mask != [] {
      if s != [] {
        IgnoringCase(s[1..], mask, s'[1..], mask');
        IgnoringCase(s[1..], mask[1..], s'[1..], mask'[1..]);
      }
      IgnoringCase(s, mask[1..], s', mask'[1..]);
    }
  }

  /** The number of characters a mask needs at least. */
  function Needed(mask: CString): nat {
    if mask == [] then 0 else (if mask[0] == STAR then 0 else 1) + Needed(mask[1..])
  }

  lemma {:induction false} MatchNeeds(s: CString, mask: CString, cs: bool)
    requires Matches(s, mask, cs)
    ensures Needed(mask) <= |s|
    decreases |s| + |mask|
  {
    if mask != [] {
      if mask[0] == STAR && !Matches(s, mask[1..], cs) {
        MatchNeeds(s[1..], mask, cs);
      } else if mask[0] == STAR {
        MatchNeeds(s, mask[1..], cs);
      } else {
        MatchNeeds(s[1..], mask[1..], cs);
      }
    }
  }

  lemma {:induction false} NeededConcat(q: CString, rest: CString)
    ensures Needed(q + rest) == Needed(q) + Needed(rest)
  {
    if q == [] {
      assert q + rest == rest;
    } else {
      assert (q + rest)[1..] == q[1..] + rest;
      NeededConcat(q[1..], rest);
    }
  }

  lemma {:induction false} NeededStarFree(q: CString)
    requires forall i :: 0 <= i < |q| ==> q[i] != STAR
    ensures Needed(q) == |q|
  {
    if q != [] {
      NeededStarFree(q[1..]);
    }
  }

  /** The empty string is described exactly by the masks made of stars alone. */
  lemma {:induction false} EmptyMatches(mask: CString, cs: bool)
    ensures Matches([], mask, cs) <==> forall i :: 0 <= i < |mask| ==> mask[i] == STAR
  {
    if mask != [] {
      EmptyMatches(mask[1..], cs);
      if Matches([], mask, cs) {
        forall i | 0 <= i < |mask| ensures mask[i] == STAR {
          if i > 0 { assert mask[i] == mask[1..][i - 1]; }
        }
      }
    }
  }

  /** Once the text is used up, sliding the last piece further right cannot help. */
  lemma TextUsedUp(s: CString, q: CString, rest: CString, cs: bool)
    requires Aligned(s, q, cs)
    ensures Matches(s, [STAR] + (q + rest), cs) <==> Matches([], rest, cs)
  {
    var whole := [STAR] + (q + rest);
    assert whole[1..] == q + rest;
    assert s[..|q|] == s && s[|q|..] == [];
    MatchesPiece(s, q, rest, cs);
    if Matches(s, whole, cs) {
      var k := StarSplits(s, q + rest, cs);
      MatchNeeds(s[k..], q + rest, cs);
      NeededConcat(q, rest);
      NeededStarFree(q);
      assert k == 0 && s[0..] == s;
    }
  }

  /** A mask that ends in its last star accepts every text. */
  lemma {:induction false} StarAcceptsAll(s: CString, cs: bool)
    ensures Matches(s, [STAR], cs)
    decreases |s|
  {
    assert [STAR][1..] == [];
    if s != [] {
      StarAcceptsAll(s[1..], cs);
    }
  }

  /** A mismatch before any star refutes the match. */
  lemma NoMatch(s: CString, mask: CString, k: nat, cs: bool)
    requires k < |s| && k <= |mask| && Aligned(s[..k], mask[..k], cs)
    requires At(mask, k) != STAR && !CharMatches(At(mask, k), s[k], cs)
    ensures !Matches(s, mask, cs)
  {
    assert mask == mask[..k] + mask[k..];
    MatchesPiece(s, mask[..k], mask[k..], cs);
    assert s[k..] != [] && s[k..][0] == s[k];
  }

  /** A mismatch after the last star rules out one position of the piece, so the star
      must absorb one more character. */
  lemma PieceFails(s: CString, mask: CString, k: nat, cs: bool)
    requires mask != [] && mask[0] == STAR && k < |s| && k + 1 <= |mask|
    requires Aligned(s[..k], mask[1..][..k], cs)
    requires At(mask, k + 1) != STAR && !CharMatches(At(mask, k + 1), s[k], cs)
    ensures Matches(s, mask, cs) <==> Matches(s[1..], mask, cs)
  {
    NoMatch(s, mask[1..], k, cs);
  }

  /** The state of the backtracking loop. The last star read is at `mp - 1`; the piece of the
      mask after it is being tried at `cp - 1` and agrees with the text as far as `s`. */
  ghost predicate Trying(str: CString, wild: CString, cp: nat, mp: nat, s: nat, w: nat, cs: bool) {
    && 1 <= cp && cp - 1 <= s <= |str| && 1 <= mp <= w <= |wild| && mp < |wild|
    && cp - 1 + (w - mp) == s
    && wild[mp - 1] == STAR
    && Aligned(str[cp - 1..s], wild[mp..w], cs)
  }

  /** What the loop still has to find out. */
  ghost predicate Pending(str: CString, wild: CString, cp: nat, mp: nat, cs: bool)
    requires 1 <= cp <= |str| + 1 && 1 <= mp <= |wild|
  {
    Matches(str[cp - 1..], wild[mp - 1..], cs)
  }

  lemma ReadStar(str: CString, wild: CString, cp: nat, mp: nat, s: nat, w: nat, cs: bool)
    requires Trying(str, wild, cp, mp, s, w, cs) && w < |wild| && wild[w] == STAR
    ensures Pending(str, wild, cp, mp, cs) <==> Pending(str, wild, s + 1, w + 1, cs)
  {
    LastStarSuffices(str[cp - 1..], wild[mp..w], wild[w + 1..], cs);
    assert str[cp - 1..][..w - mp] == str[cp - 1..s];
    assert str[cp - 1..][w - mp..] == str[s..];
    assert [STAR] + wild[w + 1..] == wild[w..];
    assert [STAR] + (wild[mp..w] + wild[w..]) == wild[mp - 1..];
  }

  lemma StartPiece(str: CString, wild: CString, s: nat, w: nat, cs: bool)
    requires s <= |str| && w + 1 < |wild| && wild[w] == STAR
    ensures Trying(str, wild, s + 1, w + 1, s, w + 1, cs)
  {
  }

  lemma Extend(str: CString, wild: CString, cp: nat, mp: nat, s: nat, w: nat, cs: bool)
    requires Trying(str, wild, cp, mp, s, w, cs) && s < |str|
    requires At(wild, w) != STAR && CharMatches(At(wild, w), str[s], cs)
    ensures w < |wild| && Trying(str, wild, cp, mp, s + 1, w + 1, cs)
  {
    assert str[cp - 1..s + 1] == str[cp - 1..s] + [str[s]];
    assert wild[mp..w + 1] == wild[mp..w] + [wild[w]];
  }

  lemma Slide(str: CString, wild: CString, cp: nat, mp: nat, s: nat, w: nat, cs: bool)
    requires Trying(str, wild, cp, mp, s, w, cs) && s < |str|
    requires At(wild, w) != STAR && !CharMatches(At(wild, w), str[s], cs)
    ensures Trying(str, wild, cp + 1, mp, cp, mp, cs)
    ensures Pending(str, wild, cp, mp, cs) <==> Pending(str, wild, cp + 1, mp, cs)
  {
    assert str[cp - 1..][..w - mp] == str[cp - 1..s];
    assert wild[mp - 1..][1..][..w - mp] == wild[mp..w];
    assert str[cp - 1..][1..] == str[cp..];
    PieceFails(str[cp - 1..], wild[mp - 1..], w - mp, cs);
  }

  lemma TextDone(str: CString, wild: CString, cp: nat, mp: nat, w: nat, cs: bool)
    requires Trying(str, wild, cp, mp, |str|, w, cs)
    ensures Pending(str, wild, cp, mp, cs) <==> Matches([], wild[w..], cs)
  {
    TextUsedUp(str[cp - 1..], wild[mp..w], wild[w..], cs);
    assert str[cp - 1..] == str[cp - 1..|str|];
    assert [STAR] + (wild[mp..w] + wild[w..]) == wild[mp - 1..];
  }

  /** The leading star-free part of the mask. */
  lemma LeadingPiece(str: CString, wild: CString, k: nat, cs: bool)
    requires k <= |str| && k <= |wild| && Aligned(str[..k], wild[..k], cs)
    ensures Matches(str, wild, cs) <==> Matches(str[k..], wild[k..], cs)
  {
    assert wild == wild[..k] + wild[k..];
    MatchesPiece(str, wild[..k], wild[k..], cs);
  }

  /** The greedy matcher with one pair of backtracking pointers. */
  method WildCmp(str: CString, wild: CString, caseSensitive: bool) returns (r: int)
    ensures r == 0 || r == 1
    ensures r != 0 <==> Matches(str, wild, caseSensitive)
    ensures r != 0 <==> exists pieces :: Denotes(pieces, wild, caseSensitive) && Joined(pieces) == str
    ensures (forall i :: 0 <= i < |wild| ==> wild[i] != 42 && wild[i] != 63) ==>
              (r != 0 <==> SameText(str, wild, caseSensitive))
  {
    MeaningOfMask(str, wild, caseSensitive);
    if forall i :: 0 <= i < |wild| ==> wild[i] != 42 && wild[i] != 63 {
      PlainMask(str, wild, caseSensitive);
    }
    var s, w := 0, 0;
    while At(str, s) != 0 && At(wild, w) != STAR
      invariant 0 <= s == w <= |str| && w <= |wild|
      invariant Aligned(str[..s], wild[..w], caseSensitive)
      decreases |str| - s
    {
      if !CharMatches(At(wild, w), str[s], caseSensitive) {
        NoMatch(str, wild, s, caseSensitive);
        return 0;
      }
      w, s := w + 1, s + 1;
    }
    LeadingPiece(str, wild, s, caseSensitive);
    if At(str, s) != 0 {
      r := AfterFirstStar(str, wild, s, caseSensitive);
    } else {
      assert str[s..] == [];
      r := OnlyStarsLeft(wild, w, caseSensitive);
    }
  }

  /** The second loop of `wildcmp`, entered in front of the first star. */
  method AfterFirstStar(str: CString, wild: CString, start: nat, caseSensitive: bool) returns (r: int)
    requires start < |str| && start < |wild| && wild[start] == STAR
    ensures r == 0 || r == 1
    ensures r != 0 <==> Matches(str[start..], wild[start..], caseSensitive)
  {
    hide Aligned, Matches;
    var s: nat, w: nat := start, start;
    var cp: nat, mp: nat := s, w;
    ghost var starred := false;
    ghost var answer := Matches(str[start..], wild[start..], caseSensitive);
    while At(str, s) != 0
      invariant s <= |str| && w <= |wild|
      invariant if starred then Trying(str, wild, cp, mp, s, w, caseSensitive) &&
                                (answer <==> Pending(str, wild, cp, mp, caseSensitive))
                else s == w == cp == mp == start
      decreases !starred, |str| - cp, |wild| - mp, |str| - s
    {
      if At(wild, w) == STAR {
        if starred {
          ReadStar(str, wild, cp, mp, s, w, caseSensitive);
        }
        w := w + 1;
        if At(wild, w) == 0 {
          assert wild[w - 1..] == [STAR];
          StarAcceptsAll(str[s..], caseSensitive);
          return 1;
        }
        StartPiece(str, wild, s, w - 1, caseSensitive);
        mp := w;
        cp := s + 1;
        starred := true;
      } else if CharMatches(At(wild, w), str[s], caseSensitive) {
        Extend(str, wild, cp, mp, s, w, caseSensitive);
        w, s := w + 1, s + 1;
      } else {
        Slide(str, wild, cp, mp, s, w, caseSensitive);
        w := mp;
        s, cp := cp, cp + 1;
      }
    }
    TextDone(str, wild, cp, mp, w, caseSensitive);
    r := OnlyStarsLeft(wild, w, caseSensitive);
  }

  /** The last loop of `wildcmp`: with the text used up, only stars may remain. */
  method OnlyStarsLeft(wild: CString, start: nat, caseSensitive: bool) returns (r: int)
    requires start <= |wild|
    ensures r == 0 || r == 1
    ensures r != 0 <==> Matches([], wild[start..], caseSensitive)
  {
    var w := start;
    while At(wild, w) == STAR
      invariant start <= w <= |wild|
      invariant forall i :: start <= i < w ==> wild[i] == STAR
      decreases |wild| - w
    {
      w := w + 1;
    }
    EmptyMatches(wild[start..], caseSensitive);
    assert w < |wild| ==> wild[start..][w - start] != STAR;
    r := if At(wild, w) == 0 then 1 else 0;
  }
}
