/** The Burrows-Wheeler transform: rotations, their order, and the proof that following the
    counting-sort permutation from the row of the original block reads the block back. */
module Bwt {
  import opened Bytes
  import opened Permutations
  import opened CountingSort

  // ---------------------------------------------------------------- order of byte strings

  ghost predicate LexLeq(a: seq<byte>, b: seq<byte>)
    decreases |a|
  {
    a == [] || (b != [] && (a[0] < b[0] || (a[0] == b[0] && LexLeq(a[1..], b[1..]))))
  }

  lemma {:induction false} LexTotal(a: seq<byte>, b: seq<byte>)
    ensures LexLeq(a, b) || LexLeq(b, a)
    decreases |a|
  {
    if a != [] && b != [] {
      LexTotal(a[1..], b[1..]);
    }
  }

  lemma {:induction false} LexAntisymmetric(a: seq<byte>, b: seq<byte>)
    requires LexLeq(a, b) && LexLeq(b, a)
    ensures a == b
    decreases |a|
  {
    if a != [] && b != [] {
      LexAntisymmetric(a[1..], b[1..]);
      assert a == [a[0]] + a[1..] && b == [b[0]] + b[1..];
    }
  }

  lemma {:induction false} LexTransitive(a: seq<byte>, b: seq<byte>, c: seq<byte>)
    requires LexLeq(a, b) && LexLeq(b, c)
    ensures LexLeq(a, c)
    decreases |a|
  {
    if a != [] && b != [] && c != [] && a[0] == b[0] == c[0] {
      LexTransitive(a[1..], b[1..], c[1..]);
    }
  }

  lemma {:induction false} LexPrefix(a: seq<byte>, b: seq<byte>, k: nat)
    requires k <= |a| == |b| && LexLeq(a, b)
    ensures LexLeq(a[..k], b[..k])
    decreases k
  {
    if k > 0 && a[0] == b[0] {
      LexPrefix(a[1..], b[1..], k - 1);
      assert a[..k][1..] == a[1..][..k - 1] && b[..k][1..] == b[1..][..k - 1];
    }
  }

  ghost predicate LexSorted(rows: seq<seq<byte>>) {
    forall j, k :: 0 <= j < k < |rows| ==> LexLeq(rows[j], rows[k])
  }

  /** Two sorted listings of the same rows are equal: `b` lists `a` in the order `sigma`. */
  lemma SortedListingUnique(a: seq<seq<byte>>, b: seq<seq<byte>>, sigma: seq<int>, j: nat)
    requires |a| == |b| && IsPermutation(sigma, |a|)
    requires forall i :: 0 <= i < |a| ==> b[i] == a[sigma[i]]
    requires LexSorted(a) && LexSorted(b)
    requires j < |a|
    ensures a[j] == b[j]
  {
    var n := |a|;
    LexTotal(a[j], a[j]);
    if !LexLeq(a[j], b[j]) {
      // b[0..j] are all below a[j], so they come from positions below j: one too many.
      forall i | 0 <= i <= j ensures sigma[i] < j {
        if sigma[i] >= j {
          if sigma[i] > j { assert LexLeq(a[j], a[sigma[i]]); }
          if i < j { LexTransitive(a[j], b[i], b[j]); }
        }
      }
      Pigeonhole(sigma[..j + 1], 0, j);
    }
    if !LexLeq(b[j], a[j]) {
      forall i | j <= i < n ensures sigma[i] > j {
        if sigma[i] <= j {
          if sigma[i] < j { assert LexLeq(a[sigma[i]], a[j]); }
          if i > j { LexTransitive(b[j], b[i], a[j]); }
        }
      }
      Pigeonhole(sigma[j..], j + 1, n);
    }
    LexAntisymmetric(a[j], b[j]);
  }

  // ---------------------------------------------------------------- rotations

  /** `s` rotated left by `k`. */
  ghost function Rotation(s: seq<byte>, k: int): (r: seq<byte>)
    requires 0 <= k <= |s|
    ensures |r| == |s|
  {
    s[k..] + s[..k]
  }

  ghost function RotateLeft(s: seq<byte>): seq<byte>
    requires s != []
  {
    s[1..] + [s[0]]
  }

  ghost function RotateRight(s: seq<byte>): seq<byte>
    requires s != []
  {
    [s[|s| - 1]] + s[..|s| - 1]
  }

  /** The row one rotation step back. */
  ghost function Previous(k: int, n: nat): int {
    if k == 0 then n - 1 else k - 1
  }

  lemma RotationStep(s: seq<byte>, k: nat)
    requires k < |s|
    ensures RotateLeft(Rotation(s, k)) == Rotation(s, k + 1)
    ensures RotateRight(Rotation(s, k)) == Rotation(s, Previous(k, |s|))
  {
    assert s[k..][1..] == s[k + 1..];
    assert s[..k] + [s[k]] == s[..k + 1];
    if k > 0 {
      assert [s[k - 1]] + s[k..] == s[k - 1..];
      assert s[..k][..k - 1] == s[..k - 1];
    } else {
      assert [s[|s| - 1]] == s[|s| - 1..];
    }
  }

  ghost function Matrix(s: seq<byte>, rows: seq<int>): (m: seq<seq<byte>>)
    requires Within(rows, 0, |s|)
    ensures |m| == |rows| && forall j :: 0 <= j < |rows| ==> m[j] == Rotation(s, rows[j])
  {
    seq(|rows|, j requires 0 <= j < |rows| => Rotation(s, rows[j]))
  }

  /** `src` is the last column of the sorted rotations of `s`, and row `firstindex` reads `s`.
      `rows[j]` is the amount by which row `j` is rotated. */
  ghost predicate IsBwt(s: seq<byte>, rows: seq<int>, src: seq<byte>, firstindex: int) {
    && s != [] && |src| == |s| && IsPermutation(rows, |s|)
    && LexSorted(Matrix(s, rows))
    && (forall j :: 0 <= j < |s| ==> src[j] == Matrix(s, rows)[j][|s| - 1])
    && 0 <= firstindex < |s| && Matrix(s, rows)[firstindex] == s
  }

  /** Row `j` of the sorted matrix rotated right by one, in the order of the sort of the last column. */
  ghost function Stepped(m: seq<seq<byte>>, t: seq<int>): (b: seq<seq<byte>>)
    requires Within(t, 0, |m|) && forall j :: 0 <= j < |m| ==> m[j] != []
    ensures |b| == |t| && forall j :: 0 <= j < |t| ==> b[j] == RotateRight(m[t[j]])
  {
    seq(|t|, j requires 0 <= j < |t| => RotateRight(m[t[j]]))
  }

  /** Sorting the rows by their last byte, stably, sorts the rows rotated right by one. */
  lemma SteppedSorted(m: seq<seq<byte>>, src: seq<byte>, t: seq<int>)
    requires |m| == |src| && LexSorted(m) && StableSort(src, t)
    requires forall j :: 0 <= j < |m| ==> |m[j]| == |src| && src[j] == m[j][|src| - 1]
    ensures LexSorted(Stepped(m, t))
  {
    forall j, k | 0 <= j < k < |t| ensures LexLeq(Stepped(m, t)[j], Stepped(m, t)[k]) {
      var a, b := m[t[j]], m[t[k]];
      assert Before(src, t[j], t[k]);
      if src[t[j]] == src[t[k]] {
        LexPrefix(a, b, |src| - 1);
        assert RotateRight(a)[1..] == a[..|src| - 1] && RotateRight(b)[1..] == b[..|src| - 1];
      }
    }
  }

  /** Which row each stepped row is. */
  ghost function SteppedIndex(rows: seq<int>, t: seq<int>, n: nat): (sigma: seq<int>)
    requires IsPermutation(rows, n) && IsPermutation(t, n)
    ensures |sigma| == n && Within(sigma, 0, n)
    ensures forall j :: 0 <= j < n ==> rows[sigma[j]] == Previous(rows[t[j]], n)
  {
    seq(n, j requires 0 <= j < n => IndexOf(rows, n, Previous(rows[t[j]], n)))
  }

  lemma SteppedIndexPermutes(rows: seq<int>, t: seq<int>, n: nat)
    requires IsPermutation(rows, n) && IsPermutation(t, n)
    ensures IsPermutation(SteppedIndex(rows, t, n), n)
  {
    var sigma := SteppedIndex(rows, t, n);
    forall j, k | 0 <= j < k < n ensures sigma[j] != sigma[k] {
      assert t[j] != t[k];
      assert rows[t[j]] != rows[t[k]];
      assert Previous(rows[t[j]], n) != Previous(rows[t[k]], n);
    }
  }

  lemma SteppedRow(s: seq<byte>, rows: seq<int>, t: seq<int>, j: nat)
    requires s != [] && IsPermutation(rows, |s|) && IsPermutation(t, |s|) && j < |s|
    ensures Stepped(Matrix(s, rows), t)[j] == Matrix(s, rows)[SteppedIndex(rows, t, |s|)[j]]
  {
    RotationStep(s, rows[t[j]]);
  }

  lemma RightThenLeft(row: seq<byte>)
    requires row != []
    ensures RotateLeft(RotateRight(row)) == row
  {
  }

  /** The key step: row `t[j]` is row `j` rotated left by one. Rows are compared as strings, so
      this also holds for periodic blocks, where several rows read the same. */
  lemma NextRow(s: seq<byte>, rows: seq<int>, src: seq<byte>, firstindex: int,
                t: seq<int>, j: nat)
    requires IsBwt(s, rows, src, firstindex) && StableSort(src, t) && j < |s|
    ensures Matrix(s, rows)[t[j]] == RotateLeft(Matrix(s, rows)[j])
  {
    hide LexLeq, Rotation, RotateRight, RotateLeft, SteppedIndex, Matrix, Stepped;
    var m, n := Matrix(s, rows), |s|;
    StableSortPermutes(src, t);
    SteppedSorted(m, src, t);
    SteppedIndexPermutes(rows, t, n);
    var sigma := SteppedIndex(rows, t, n);
    forall i | 0 <= i < n ensures Stepped(m, t)[i] == m[sigma[i]] {
      SteppedRow(s, rows, t, i);
    }
    SortedListingUnique(m, Stepped(m, t), sigma, j);
    RightThenLeft(m[t[j]]);
  }

  // ---------------------------------------------------------------- bwt_unsort

  /** The row reached from `idx` after `k` steps through the permutation. */
  ghost function Follow(t: seq<int>, idx: int, k: nat): (r: int)
    requires Within(t, 0, |t|) && 0 <= idx < |t|
    ensures 0 <= r < |t|
  {
    if k == 0 then idx else t[Follow(t, idx, k - 1)]
  }

  /** The bytes met on the way through the permutation. */
  ghost predicate Unsorted(dest: seq<byte>, src: seq<byte>, firstindex: int, t: seq<int>)
    requires Within(t, 0, |src|) && |t| == |src| && 0 <= firstindex < |src|
  {
    |dest| == |src| && forall i :: 0 <= i < |dest| ==> dest[i] == src[Follow(t, firstindex, i + 1)]
  }

  lemma {:induction false} FollowRotates(s: seq<byte>, rows: seq<int>, src: seq<byte>, firstindex: int,
                                         t: seq<int>, k: nat)
    requires IsBwt(s, rows, src, firstindex) && StableSort(src, t) && k <= |s|
    ensures Matrix(s, rows)[Follow(t, firstindex, k)] == Rotation(s, k)
  {
    hide LexSorted, StableSort, LexLeq, Matrix;
    StableSortPermutes(src, t);
    if k == 0 {
      assert Rotation(s, 0) == s;
    } else {
      FollowRotates(s, rows, src, firstindex, t, k - 1);
      NextRow(s, rows, src, firstindex, t, Follow(t, firstindex, k - 1));
      RotationStep(s, k - 1);
    }
  }

  /** The inverse of a Burrows-Wheeler transform is the block it was made from. */
  lemma RoundTrip(s: seq<byte>, rows: seq<int>, src: seq<byte>, firstindex: int,
                  t: seq<int>, dest: seq<byte>)
    requires IsBwt(s, rows, src, firstindex) && StableSort(src, t)
    requires Unsorted(dest, src, firstindex, t)
    ensures dest == s
  {
    hide LexSorted, StableSort, LexLeq, Matrix;
    StableSortPermutes(src, t);
    forall i | 0 <= i < |s| ensures dest[i] == s[i] {
      FollowRotates(s, rows, src, firstindex, t, i + 1);
      assert dest[i] == src[Follow(t, firstindex, i + 1)];
      assert Rotation(s, i + 1)[|s| - 1] == s[i];
    }
  }

  // ---------------------------------------------------------------- the encoder

  /** Where rotation `k` belongs among sorted rotations. */
  ghost function Place(s: seq<byte>, rows: seq<int>, k: int): (at: nat)
    requires Within(rows, 0, |s|) && 0 <= k < |s|
    ensures at <= |rows|
    ensures forall i :: 0 <= i < at ==> LexLeq(Rotation(s, rows[i]), Rotation(s, k))
    ensures at < |rows| ==> LexLeq(Rotation(s, k), Rotation(s, rows[at]))
  {
    if rows == [] || LexLeq(Rotation(s, k), Rotation(s, rows[0])) then 0
    else
      LexTotal(Rotation(s, k), Rotation(s, rows[0]));
      1 + Place(s, rows[1..], k)
  }

  /** Sorted rotations with the next one put in its place. */
  ghost function InsertRow(s: seq<byte>, rows: seq<int>): (r: seq<int>)
    requires |rows| < |s| && IsPermutation(rows, |rows|)
    ensures IsPermutation(r, |rows| + 1)
  {
    Inserted(rows, |rows|, Place(s, rows, |rows|))
  }

  /** The rotations by less than `n`, sorted by insertion. */
  ghost function SortedRows(s: seq<byte>, n: nat): (r: seq<int>)
    requires n <= |s|
    ensures IsPermutation(r, n)
  {
    if n == 0 then [] else InsertRow(s, SortedRows(s, n - 1))
  }

  lemma InsertSorted(m: seq<seq<byte>>, row: seq<byte>, at: nat)
    requires LexSorted(m) && at <= |m|
    requires forall i :: 0 <= i < at ==> LexLeq(m[i], row)
    requires at < |m| ==> LexLeq(row, m[at])
    ensures LexSorted(m[..at] + [row] + m[at..])
  {
    hide LexLeq;
    var r := m[..at] + [row] + m[at..];
    forall j | at <= j < |m| ensures LexLeq(row, m[j]) {
      if j > at { LexTransitive(row, m[at], m[j]); }
    }
    forall i, j | 0 <= i < j < |r| ensures LexLeq(r[i], r[j]) {
      assert r[i] == if i < at then m[i] else if i == at then row else m[i - 1];
      assert r[j] == if j < at then m[j] else if j == at then row else m[j - 1];
    }
  }

  lemma MatrixInsert(s: seq<byte>, rows: seq<int>, at: nat, k: int)
    requires Within(rows, 0, |s|) && at <= |rows| && 0 <= k < |s|
    ensures Within(rows[..at] + [k] + rows[at..], 0, |s|)
    ensures Matrix(s, rows[..at] + [k] + rows[at..]) ==
            Matrix(s, rows)[..at] + [Rotation(s, k)] + Matrix(s, rows)[at..]
  {
    hide Rotation;
    var r := rows[..at] + [k] + rows[at..];
    assert forall i :: 0 <= i < |r| ==> r[i] == if i < at then rows[i] else if i == at then k else rows[i - 1];
  }

  lemma InsertRowSorted(s: seq<byte>, rows: seq<int>)
    requires |rows| < |s| && IsPermutation(rows, |rows|) && LexSorted(Matrix(s, rows))
    ensures LexSorted(Matrix(s, InsertRow(s, rows)))
  {
    hide LexLeq, LexSorted, Rotation, Matrix, Place, Injective;
    var at := Place(s, rows, |rows|);
    MatrixInsert(s, rows, at, |rows|);
    InsertSorted(Matrix(s, rows), Rotation(s, |rows|), at);
  }

  lemma {:induction false} SortedRowsSorted(s: seq<byte>, n: nat)
    requires n <= |s|
    ensures LexSorted(Matrix(s, SortedRows(s, n)))
  {
    hide InsertRow, LexSorted, Matrix, IsPermutation;
    if n == 0 {
      NoRowsSorted(s);
    } else {
      SortedRowsSorted(s, n - 1);
      LengthOf(s, n - 1);
      InsertRowSorted(s, SortedRows(s, n - 1));
    }
  }

  lemma NoRowsSorted(s: seq<byte>)
    ensures LexSorted(Matrix(s, []))
  {
  }

  lemma LengthOf(s: seq<byte>, n: nat)
    requires n <= |s|
    ensures |SortedRows(s, n)| == n
  {
  }

  /** Last column of the matrix and a row that reads the block: the transform of `s`. */
  ghost function Encode(s: seq<byte>): (r: (seq<byte>, int))
    requires s != []
  {
    var rows := SortedRows(s, |s|);
    (seq(|s|, j requires 0 <= j < |s| => Rotation(s, rows[j])[|s| - 1]), IndexOf(rows, |s|, 0))
  }

  /** Every non-empty block has a transform, and the encoder finds it. */
  lemma {:induction false} EncodeIsBwt(s: seq<byte>)
    requires s != []
    ensures IsBwt(s, SortedRows(s, |s|), Encode(s).0, Encode(s).1)
  {
    SortedRowsSorted(s, |s|);
    assert Rotation(s, 0) == s;
  }

  /** The last column does not depend on how equal rotations are ordered. */
  lemma ColumnUnique(s: seq<byte>, rows: seq<int>, src: seq<byte>, first: int,
                     rows': seq<int>, src': seq<byte>, first': int)
    requires IsBwt(s, rows, src, first) && IsBwt(s, rows', src', first')
    ensures src == src'
  {
    hide LexLeq, Rotation;
    var m, m', n := Matrix(s, rows), Matrix(s, rows'), |s|;
    var sigma := seq(n, j requires 0 <= j < n => IndexOf(rows, n, rows'[j]));
    forall i, j | 0 <= i < j < n ensures sigma[i] != sigma[j] {
      assert rows[sigma[i]] == rows'[i] && rows[sigma[j]] == rows'[j];
    }
    forall j | 0 <= j < n ensures src[j] == src'[j] {
      SortedListingUnique(m, m', sigma, j);
    }
  }

  /** Nothing is lost: blocks with the same column and the same row are equal. */
  lemma BwtInjective(s: seq<byte>, rows: seq<int>, s': seq<byte>, rows': seq<int>,
                     src: seq<byte>, first: int)
    requires IsBwt(s, rows, src, first) && IsBwt(s', rows', src, first)
    ensures s == s'
  {
    hide IsBwt, StableSort;
    var t := SortPositions(src);
    ColumnNotEmpty(s, rows, src, first);
    StableSortPermutes(src, t);
    var dest := seq(|src|, i requires 0 <= i < |src| => src[Follow(t, first, i + 1)]);
    RoundTrip(s, rows, src, first, t, dest);
    RoundTrip(s', rows', src, first, t, dest);
  }

  lemma ColumnNotEmpty(s: seq<byte>, rows: seq<int>, src: seq<byte>, first: int)
    requires IsBwt(s, rows, src, first)
    ensures 0 <= first < |src|
  {
  }

  /** Whatever the input, when the walk from `firstindex` visits every row the output is a
      rearrangement of the input. */
  lemma FullOrbitRearranges(src: seq<byte>, firstindex: int, t: seq<int>, dest: seq<byte>)
    requires StableSort(src, t) && 0 <= firstindex < |src| && Unsorted(dest, src, firstindex, t)
    requires forall i, j :: 0 <= i < j < |src| ==> Follow(t, firstindex, i) != Follow(t, firstindex, j)
    ensures multiset(dest) == multiset(src)
  {
    var n := |src|;
    var p := seq(n, i requires 0 <= i < n => Follow(t, firstindex, i + 1));
    forall i, j | 0 <= i < j < n ensures p[i] != p[j] {
      var a, b := Follow(t, firstindex, i), Follow(t, firstindex, j);
      assert a != b;
      if a < b { assert Before(src, t[a], t[b]); } else { assert Before(src, t[b], t[a]); }
    }
    GatherRearranges(src, p);
    assert dest == Gather(src, p);
  }

  method BwtUnsort(dest: array<byte>, src: array<byte>, blocklen: nat, firstindex: int, transformbuf: array<int>)
    requires blocklen <= dest.Length && blocklen <= src.Length && blocklen <= transformbuf.Length
    requires dest != src
    requires blocklen > 0 ==> 0 <= firstindex < blocklen
    modifies dest, transformbuf
    ensures StableSort(src[..blocklen], transformbuf[..blocklen])
    ensures blocklen > 0 ==> Unsorted(dest[..blocklen], src[..blocklen], firstindex, transformbuf[..blocklen])
    ensures dest[blocklen..] == old(dest[blocklen..])
    ensures forall s, rows :: IsBwt(s, rows, src[..blocklen], firstindex) ==> dest[..blocklen] == s
  {
    ghost var column := src[..blocklen];
    BwtInverse(transformbuf, src, blocklen);
    ghost var t := transformbuf[..blocklen];
    StableSortPermutes(column, t);
    if blocklen > 0 {
      Walk(dest, src, blocklen, firstindex, transformbuf);
    }
    ReadsBack(column, firstindex, t, dest[..blocklen]);
  }

  /** The loop of `bwt_unsort`. */
  method Walk(dest: array<byte>, src: array<byte>, blocklen: nat, firstindex: int, transformbuf: array<int>)
    requires 0 < blocklen <= dest.Length && blocklen <= src.Length && blocklen <= transformbuf.Length
    requires dest != src && 0 <= firstindex < blocklen
    requires Within(transformbuf[..blocklen], 0, blocklen)
    modifies dest
    ensures Unsorted(dest[..blocklen], src[..blocklen], firstindex, transformbuf[..blocklen])
    ensures dest[blocklen..] == old(dest[blocklen..])
  {
    ghost var t := transformbuf[..blocklen];
    var idx := firstindex;
    for i := 0 to blocklen
      invariant 0 <= idx < blocklen && idx == Follow(t, firstindex, i)
      invariant forall k :: 0 <= k < i ==> dest[k] == src[Follow(t, firstindex, k + 1)]
      invariant forall k :: blocklen <= k < dest.Length ==> dest[k] == old(dest[k])
    {
      assert transformbuf[idx] == t[idx] == Follow(t, firstindex, i + 1);
      idx := transformbuf[idx];
      dest[i] := src[idx];
    }
  }

  lemma ReadsBack(column: seq<byte>, firstindex: int, t: seq<int>, dest: seq<byte>)
    requires StableSort(column, t) && Within(t, 0, |column|) && |dest| == |column|
    requires column != [] ==> 0 <= firstindex < |column| && Unsorted(dest, column, firstindex, t)
    ensures forall s, rows :: IsBwt(s, rows, column, firstindex) ==> dest == s
  {
    hide StableSort, Unsorted;
    forall s, rows | IsBwt(s, rows, column, firstindex) ensures dest == s {
      RoundTrip(s, rows, column, firstindex, t, dest);
    }
  }
}
