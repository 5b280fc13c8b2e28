/** Forward elimination over GF(2) on a flat buffer of bit rows: `row_size` words per row,
    vertex (column) `c` of a row being its bit `c` in the layout of the bit rows. The
    buffer is read as its full rows followed by a remainder that no step touches. */
module LinAlg {
  import opened Words
  import opened Chunks
  import opened VecOps

  // ----------------------------------------------------------------------------
  // `xor_slices`

  /** Word-wise `^` over the words both rows have; words of `a` past the end of `b` stay. */
  function XorRows(a: seq<Word>, b: seq<Word>): (r: seq<Word>)
    ensures |r| == |a|
  {
    seq(|a|, k requires 0 <= k < |a| => if k < |b| then Xor(a[k], b[k]) else a[k])
  }

  /** XOR with the same row undoes itself. */
  lemma XorRowsTwice(a: seq<Word>, b: seq<Word>)
    ensures XorRows(XorRows(a, b), b) == a
  {
    var twice := XorRows(XorRows(a, b), b);
    forall k | 0 <= k < |a|
      ensures twice[k] == a[k]
    {
      if k < |b| {
        WordExt(twice[k], a[k]);
      }
    }
  }

  /** `xor_slices` toggles the vertices of `b` that fall inside `a`'s words. */
  lemma XorRowsSpec(a: seq<Word>, b: seq<Word>)
    ensures forall q: nat :: InRow(XorRows(a, b), q) <==> (InRow(a, q) != (q / 64 < |a| && InRow(b, q)))
  {
  }

  /** `xor_slices` on the slice `slice[lo..hi]`. */
  method XorSlices(slice: array<Word>, lo: nat, hi: nat, slice2: seq<Word>)
    requires lo <= hi <= slice.Length
    modifies slice
    ensures slice[..] == old(slice[..])[..lo] + XorRows(old(slice[..])[lo..hi], slice2) + old(slice[..])[hi..]
  {
    var k := 0;
    while lo + k < hi && k < |slice2|
      invariant 0 <= k <= hi - lo && k <= |slice2|
      invariant forall t :: 0 <= t < slice.Length ==>
                  slice[t] == if lo <= t < lo + k then Xor(old(slice[t]), slice2[t - lo]) else old(slice[t])
    {
      slice[lo + k] := Xor(slice[lo + k], slice2[k]);
      k := k + 1;
    }
    XorSegment(old(slice[..]), slice[..], lo, hi, slice2, k);
  }

  /** A buffer whose words `lo .. lo + k` were XORed with `slice2`, where the pass stopped at
      the end of the segment or of `slice2`, is the buffer with the segment XORed. */
  lemma XorSegment(before: seq<Word>, after: seq<Word>, lo: nat, hi: nat, slice2: seq<Word>, k: nat)
    requires lo <= hi <= |before| == |after| && k <= hi - lo && k <= |slice2| && (lo + k == hi || k == |slice2|)
    requires forall t :: 0 <= t < |after| ==>
               after[t] == if lo <= t < lo + k then Xor(before[t], slice2[t - lo]) else before[t]
    ensures after == before[..lo] + XorRows(before[lo..hi], slice2) + before[hi..]
  {
    var want := before[..lo] + XorRows(before[lo..hi], slice2) + before[hi..];
    assert forall t :: 0 <= t < |after| ==> after[t] == want[t];
  }

  // ----------------------------------------------------------------------------
  // `swap_chunks`

  /** The segments `s[si..si + n]` and `s[sj..sj + n]` exchanged, everything else kept. */
  function SwapSegments<T>(s: seq<T>, si: nat, sj: nat, n: nat): (r: seq<T>)
    requires si + n <= sj && sj + n <= |s|
    ensures |r| == |s|
  {
    s[..si] + s[sj..sj + n] + s[si + n..sj] + s[si..si + n] + s[sj + n..]
  }

  /** `swap_chunks`: rows `i` and `j` of `n_chunks` elements exchanged; nothing happens when
      `i == j`. The split at `j * n_chunks` needs row `i` to end before row `j` starts and
      row `j` to fit the slice. */
  method SwapChunks<T>(slice: array<T>, nChunks: nat, i: nat, j: nat)
    requires i == j || (i * nChunks + nChunks <= j * nChunks && j * nChunks + nChunks <= slice.Length)
    modifies slice
    ensures i == j ==> slice[..] == old(slice[..])
    ensures i != j ==> slice[..] == SwapSegments(old(slice[..]), i * nChunks, j * nChunks, nChunks)
  {
    if i != j {
      SwapWithSlice(slice, i * nChunks, j * nChunks, nChunks);
    }
  }

  /** `swap_with_slice` of the `n` elements at `si` with the `n` elements at `sj`. */
  method SwapWithSlice<T>(slice: array<T>, si: nat, sj: nat, n: nat)
    requires si + n <= sj && sj + n <= slice.Length
    modifies slice
    ensures slice[..] == SwapSegments(old(slice[..]), si, sj, n)
  {
    var k := 0;
    while k < n
      invariant 0 <= k <= n
      invariant forall t :: si <= t < si + k ==> slice[t] == old(slice[t - si + sj])
      invariant forall t :: sj <= t < sj + k ==> slice[t] == old(slice[t - sj + si])
      invariant forall t :: 0 <= t < slice.Length && !(si <= t < si + k) && !(sj <= t < sj + k) ==>
                  slice[t] == old(slice[t])
    {
      slice[si + k], slice[sj + k] := slice[sj + k], slice[si + k];
      k := k + 1;
    }
    SwapSegmentsAt(old(slice[..]), slice[..], si, sj, n);
  }

  /** A sequence that holds, element by element, the exchanged segments is the swap. */
  lemma {:induction false} SwapSegmentsAt<T>(s: seq<T>, s': seq<T>, si: nat, sj: nat, n: nat)
    requires si + n <= sj && sj + n <= |s| && |s'| == |s|
    requires forall t :: si <= t < si + n ==> s'[t] == s[t - si + sj]
    requires forall t :: sj <= t < sj + n ==> s'[t] == s[t - sj + si]
    requires forall t :: 0 <= t < |s| && !(si <= t < si + n) && !(sj <= t < sj + n) ==> s'[t] == s[t]
    ensures s' == SwapSegments(s, si, sj, n)
  {
    var a, x, b, y, c := s[..si], s[sj..sj + n], s[si + n..sj], s[si..si + n], s[sj + n..];
    var r := SwapSegments(s, si, sj, n);
    assert r == (((a + x) + b) + y) + c;
    forall t | 0 <= t < |s|
      ensures s'[t] == r[t]
    {
      if t < si {
        assert r[t] == a[t] == s[t] == s'[t];
      } else if t < si + n {
        assert r[t] == x[t - si] == s[t - si + sj] == s'[t];
      } else if t < sj {
        assert r[t] == b[t - si - n] == s[t] == s'[t];
      } else if t < sj + n {
        assert r[t] == y[t - sj] == s[t - sj + si] == s'[t];
      } else {
        assert r[t] == c[t - sj - n] == s[t] == s'[t];
      }
    }
  }

  /** Rows `i` and `j` of a uniform row list exchanged. */
  function SwapRows(rows: seq<seq<Word>>, i: nat, j: nat): (r: seq<seq<Word>>)
    requires i < |rows| && j < |rows|
    ensures |r| == |rows|
  {
    rows[i := rows[j]][j := rows[i]]
  }

  lemma SwapSegmentsConcat<T>(s: seq<T>, si: nat, sj: nat, n: nat,
                              a: seq<T>, x: seq<T>, b: seq<T>, y: seq<T>, c: seq<T>)
    requires s == a + x + b + y + c && |x| == n && |y| == n && si == |a| && sj == |a| + n + |b|
    ensures si + n <= sj && sj + n <= |s|
    ensures SwapSegments(s, si, sj, n) == a + y + b + x + c
  {
    assert s[..si] == a;
    assert s[sj..sj + n] == y;
    assert s[si + n..sj] == b;
    assert s[si..si + n] == x;
    assert s[sj + n..] == c;
  }

  /** Swapping two segments of the flat buffer is swapping the two rows of its row view. */
  lemma {:induction false} SwapChunksRows(rows: seq<seq<Word>>, tail: seq<Word>, size: nat, i: nat, j: nat)
    requires Uniform(rows, size) && i < j < |rows|
    ensures i * size + size <= j * size && j * size + size <= |Flatten(rows) + tail|
    ensures SwapSegments(Flatten(rows) + tail, i * size, j * size, size) == Flatten(SwapRows(rows, i, j)) + tail
  {
    var x, y := rows[i], rows[j];
    var sa, sb, sc := Flatten(rows[..i]), Flatten(rows[i + 1..j]), Flatten(rows[j + 1..]);
    assert Flatten(rows) + tail == sa + x + sb + y + (sc + tail) by {
      FlatLayout(rows, tail, i, j);
    }
    assert Flatten(SwapRows(rows, i, j)) + tail == sa + y + sb + x + (sc + tail) by {
      SwappedLayout(rows, tail, i, j);
    }
    assert |x| == size && |y| == size;
    assert |sa| == i * size && |sa| + size + |sb| == j * size by {
      LayoutOffsets(rows, i, j, size);
    }
    SwapSegmentsConcat(Flatten(rows) + tail, i * size, j * size, size, sa, x, sb, y, sc + tail);
  }

  lemma {:induction false} SwappedLayout<T>(rows: seq<seq<T>>, tail: seq<T>, i: nat, j: nat)
    requires i < j < |rows|
    ensures Flatten(rows[i := rows[j]][j := rows[i]]) + tail
         == Flatten(rows[..i]) + rows[j] + Flatten(rows[i + 1..j]) + rows[i] + (Flatten(rows[j + 1..]) + tail)
  {
    var swapped := rows[i := rows[j]][j := rows[i]];
    assert swapped[..i] == rows[..i] && swapped[i + 1..j] == rows[i + 1..j] && swapped[j + 1..] == rows[j + 1..];
    FlatLayout(swapped, tail, i, j);
  }

  /** The buffer split around rows `i` and `j`. */
  lemma {:induction false} FlatLayout<T>(rows: seq<seq<T>>, tail: seq<T>, i: nat, j: nat)
    requires i < j < |rows|
    ensures Flatten(rows) + tail
         == Flatten(rows[..i]) + rows[i] + Flatten(rows[i + 1..j]) + rows[j] + (Flatten(rows[j + 1..]) + tail)
  {
    FlattenFive(rows, i, j);
  }

  lemma {:induction false} LayoutOffsets(rows: seq<seq<Word>>, i: nat, j: nat, size: nat)
    requires Uniform(rows, size) && i < j < |rows|
    ensures |Flatten(rows[..i])| == i * size
    ensures |Flatten(rows[..i])| + size + |Flatten(rows[i + 1..j])| == j * size
  {
    FlattenLength(rows[..i], size);
    FlattenLength(rows[i + 1..j], size);
    RowOffsets(i, j, size);
  }

  lemma RowOffsets(i: nat, j: nat, size: nat)
    requires i < j
    ensures i * size + size + (j - i - 1) * size == j * size
  {
    assert (j - i - 1) * size == j * size - i * size - size;
  }

  /** The concatenation split around rows `i` and `j`. */
  lemma {:induction false} FlattenFive<T>(rows: seq<seq<T>>, i: nat, j: nat)
    requires i < j < |rows|
    ensures Flatten(rows) == Flatten(rows[..i]) + rows[i] + Flatten(rows[i + 1..j]) + rows[j] + Flatten(rows[j + 1..])
  {
    var a, b, c := rows[..i], rows[i + 1..j], rows[j + 1..];
    var p1 := a + [rows[i]];
    var p2 := p1 + b;
    var p3 := p2 + [rows[j]];
    assert Flatten(rows) == Flatten(p3) + Flatten(c) by {
      assert rows == p3 + c;
      FlattenConcat(p3, c);
    }
    assert Flatten(p3) == Flatten(p2) + rows[j] by {
      FlattenConcat(p2, [rows[j]]);
      FlattenOne(rows[j]);
    }
    assert Flatten(p2) == Flatten(p1) + Flatten(b) by {
      FlattenConcat(p1, b);
    }
    assert Flatten(p1) == Flatten(a) + rows[i] by {
      FlattenConcat(a, [rows[i]]);
      FlattenOne(rows[i]);
    }
  }

  // ----------------------------------------------------------------------------
  // `chunk_contains`

  /** `chunk_contains`: an index past the slice is not contained; otherwise its bit is
      tested. */
  function ChunkContains(slice: seq<Word>, index: nat): (r: bool)
    ensures r <==> InRow(slice, index)
  {
    var chunkPosition := index / 64;
    var bitPosition := index % 64;
    if chunkPosition < |slice| then
      AndBitNonZero(slice[chunkPosition], bitPosition);
      And(slice[chunkPosition], Bit(bitPosition)) != Zero()
    else
      false
  }

  /** `chunk_contains` agrees with the vertex list `indexes` reads out of the row. */
  lemma ChunkContainsPositions(slice: seq<Word>, index: nat)
    ensures ChunkContains(slice, index) <==> index in Positions(slice)
  {
    PositionsMembers(slice);
  }

  // ----------------------------------------------------------------------------
  // Elimination, stated on the row view

  function Min(a: nat, b: nat): nat {
    if a < b then a else b
  }

  /** `row_size` of `gaussian_elimination`: `(n_cols + 64) / 64` words. */
  function RowSize(nCols: nat): (r: nat)
    ensures r > 0
  {
    (nCols + 64) / 64
  }

  /** `max_rank`: the smaller of the column count and the buffer's WORD count. */
  function MaxRank(nCols: nat, words: nat): nat {
    Min(nCols, words)
  }

  /** The first row from `r` on that holds vertex `p`, or `p` when none does. */
  function PivotFrom(rows: seq<seq<Word>>, p: nat, r: nat): nat
    decreases |rows| - r
  {
    if r >= |rows| then p else if InRow(rows[r], p) then r else PivotFrom(rows, p, r + 1)
  }

  /** The pivot row for column `p`: the search starts at row `p`. */
  function FindPivot(rows: seq<seq<Word>>, p: nat): nat {
    PivotFrom(rows, p, p)
  }

  lemma {:induction false} PivotFromSpec(rows: seq<seq<Word>>, p: nat, r: nat)
    requires p <= r
    requires forall k :: p <= k < r && k < |rows| ==> !InRow(rows[k], p)
    ensures var k := PivotFrom(rows, p, r);
      (k == p || r <= k < |rows|)
      && (forall m :: p <= m < k && m < |rows| ==> !InRow(rows[m], p))
      && ((k < |rows| && InRow(rows[k], p))
          || (k == p && forall m :: p <= m < |rows| ==> !InRow(rows[m], p)))
    decreases |rows| - r
  {
    if r < |rows| && !InRow(rows[r], p) {
      PivotFromSpec(rows, p, r + 1);
    }
  }

  /** The pivot search returns the first row at or after `p` holding vertex `p`, and `p`
      itself when no such row exists. */
  lemma FindPivotSpec(rows: seq<seq<Word>>, p: nat)
    ensures FindPivot(rows, p) == p || p < FindPivot(rows, p) < |rows|
    ensures forall m :: p <= m < FindPivot(rows, p) ==> !InRow(rows[m], p)
    ensures (FindPivot(rows, p) < |rows| && InRow(rows[FindPivot(rows, p)], p))
            || (FindPivot(rows, p) == p && forall m :: p <= m < |rows| ==> !InRow(rows[m], p))
  {
    PivotFromSpec(rows, p, p);
  }

  /** Rows `p + 1 .. upTo - 1` that hold vertex `p` XORed with row `p`, one row after the
      other. */
  function XorBelow(rows: seq<seq<Word>>, p: nat, upTo: nat): (r: seq<seq<Word>>)
    requires p < |rows| && upTo <= |rows|
    ensures |r| == |rows|
  {
    if upTo <= p + 1 then rows
    else
      var prev := XorBelow(rows, p, upTo - 1);
      if InRow(rows[upTo - 1], p) then prev[upTo - 1 := XorRows(rows[upTo - 1], rows[p])] else prev
  }

  /** Row by row: a row strictly between `p` and `upTo` that holds vertex `p` is XORed with
      row `p`; every other row is as it was. */
  lemma {:induction false} XorBelowAt(rows: seq<seq<Word>>, p: nat, upTo: nat)
    requires p < |rows| && upTo <= |rows|
    ensures forall r :: 0 <= r < |rows| ==>
              XorBelow(rows, p, upTo)[r] == if p < r < upTo && InRow(rows[r], p) then XorRows(rows[r], rows[p]) else rows[r]
  {
    if upTo > p + 1 {
      XorBelowAt(rows, p, upTo - 1);
    }
  }

  /** The XOR pass keeps every row `size` words long. */
  lemma {:induction false} XorBelowUniform(rows: seq<seq<Word>>, p: nat, upTo: nat, size: nat)
    requires p < |rows| && upTo <= |rows| && Uniform(rows, size)
    ensures Uniform(XorBelow(rows, p, upTo), size)
  {
    if upTo > p + 1 {
      XorBelowUniform(rows, p, upTo - 1, size);
    }
  }

  /** One round of `gaussian_elimination` for pivot `p`: swap the pivot row up, then XOR
      it into every lower row holding vertex `p`. */
  function Step(rows: seq<seq<Word>>, p: nat): (r: seq<seq<Word>>)
    requires p < |rows|
    ensures |r| == |rows|
  {
    FindPivotSpec(rows, p);
    var swapped := SwapRows(rows, p, FindPivot(rows, p));
    XorBelow(swapped, p, |rows|)
  }

  /** The rounds for pivots `0 .. n - 1`. */
  function Steps(rows: seq<seq<Word>>, n: nat): (r: seq<seq<Word>>)
    requires n <= |rows|
    ensures |r| == |rows|
  {
    if n == 0 then rows else Step(Steps(rows, n - 1), n - 1)
  }

  lemma StepUniform(rows: seq<seq<Word>>, p: nat, size: nat)
    requires p < |rows| && Uniform(rows, size)
    ensures Uniform(Step(rows, p), size)
  {
    FindPivotSpec(rows, p);
    XorBelowAt(SwapRows(rows, p, FindPivot(rows, p)), p, |rows|);
  }

  lemma {:induction false} StepsUniform(rows: seq<seq<Word>>, n: nat, size: nat)
    requires n <= |rows| && Uniform(rows, size)
    ensures Uniform(Steps(rows, n), size)
  {
    if n > 0 {
      StepsUniform(rows, n - 1, size);
      StepUniform(Steps(rows, n - 1), n - 1, size);
    }
  }

  /** When no row at or after `p` holds vertex `p`, the round for `p` changes nothing. */
  lemma StepWithoutPivot(rows: seq<seq<Word>>, p: nat)
    requires p < |rows|
    requires forall r :: p <= r < |rows| ==> !InRow(rows[r], p)
    ensures Step(rows, p) == rows
  {
    FindPivotSpec(rows, p);
    assert SwapRows(rows, p, p) == rows;
    XorBelowAt(rows, p, |rows|);
  }

  /** A round keeps the columns already cleared below the diagonal cleared, and clears
      column `p` below row `p`. */
  lemma StepClears(rows: seq<seq<Word>>, p: nat, size: nat)
    requires p < |rows| && Uniform(rows, size)
    requires forall c: nat, r: nat :: c < p && c < r < |rows| ==> !InRow(rows[r], c)
    ensures forall c: nat, r: nat :: c <= p && c < r < |rows| ==> !InRow(Step(rows, p)[r], c)
  {
    FindPivotSpec(rows, p);
    var last := FindPivot(rows, p);
    var swapped := SwapRows(rows, p, last);
    var result := Step(rows, p);
    assert result == XorBelow(swapped, p, |rows|);
    XorBelowAt(swapped, p, |rows|);
    forall c: nat, r: nat | c <= p && c < r < |rows|
      ensures !InRow(result[r], c)
    {
      if p < r && InRow(swapped[r], p) {
        assert result[r] == XorRows(swapped[r], swapped[p]);
        assert c / 64 < |swapped[r]| ==> c / 64 < |swapped[p]|;
        if c < p {
          assert !InRow(swapped[r], c) && !InRow(swapped[p], c);
        } else {
          assert InRow(swapped[p], p);
        }
        XorRowsSpec(swapped[r], swapped[p]);
      } else {
        assert result[r] == swapped[r];
        if c < p {
          assert !InRow(swapped[r], c);
        }
      }
    }
  }

  /** After the rounds for pivots `0 .. n - 1`, no row below row `c` holds vertex `c`, for
      every `c < n`. */
  lemma {:induction false} StepsEchelon(rows: seq<seq<Word>>, n: nat, size: nat)
    requires n <= |rows| && Uniform(rows, size)
    ensures forall c: nat, r: nat :: c < n && c < r < |rows| ==> !InRow(Steps(rows, n)[r], c)
  {
    if n > 0 {
      var prev := Steps(rows, n - 1);
      StepsEchelon(rows, n - 1, size);
      StepsUniform(rows, n - 1, size);
      StepClears(prev, n - 1, size);
      assert Steps(rows, n) == Step(prev, n - 1);
    }
  }

  // ----------------------------------------------------------------------------
  // `rank`

  /** The number of rows holding at least one vertex. */
  function NonNullRows(rows: seq<seq<Word>>): (r: nat)
    ensures r <= |rows|
    ensures r == 0 <==> forall k :: 0 <= k < |rows| ==> IsNull(rows[k])
    ensures r == |rows| <==> forall k :: 0 <= k < |rows| ==> !IsNull(rows[k])
  {
    if |rows| == 0 then 0
    else NonNullRows(rows[..|rows| - 1]) + (if IsNull(rows[|rows| - 1]) then 0 else 1)
  }

  /** `linalg::rank` is called by `betti` but defined nowhere in the repository. The model
      ASSUMES it counts the rows (of `(n_cols + 64) / 64` words, as in the elimination) that
      hold any vertex; after elimination those are the pivot rows. */
  function Rank(matrix: seq<Word>, nCols: nat): (r: nat)
    ensures r <= |Rows(matrix, RowSize(nCols))|
  {
    NonNullRows(Rows(matrix, RowSize(nCols)))
  }

  // ----------------------------------------------------------------------------
  // `gaussian_elimination`

  /** The result `gaussian_elimination` leaves in a buffer of `|m|` words: the first
      `max_rank` rounds applied to the row view, followed by the untouched remainder. The
      split at line 45 of the source panics once a round's pivot row is past the last full
      row, hence the precondition. */
  function Eliminated(m: seq<Word>, nCols: nat): (r: seq<Word>)
    requires MaxRank(nCols, |m|) <= |Rows(m, RowSize(nCols))|
    ensures |r| == |m|
  {
    var rows := Rows(m, RowSize(nCols));
    RowsSplit(m, RowSize(nCols));
    StepsUniform(rows, MaxRank(nCols, |m|), RowSize(nCols));
    FlattenLength(Steps(rows, MaxRank(nCols, |m|)), RowSize(nCols));
    FlattenLength(rows, RowSize(nCols));
    Flatten(Steps(rows, MaxRank(nCols, |m|))) + m[|Flatten(rows)|..]
  }

  /** After elimination the row view has the same number of rows, every row keeps its
      width, and no row below row `c` holds vertex `c`, for every pivot `c < max_rank`. */
  lemma EliminatedEchelon(m: seq<Word>, nCols: nat)
    requires MaxRank(nCols, |m|) <= |Rows(m, RowSize(nCols))|
    ensures |Rows(Eliminated(m, nCols), RowSize(nCols))| == |Rows(m, RowSize(nCols))|
    ensures Uniform(Rows(Eliminated(m, nCols), RowSize(nCols)), RowSize(nCols))
    ensures forall c: nat, r: nat :: c < MaxRank(nCols, |m|) && c < r < |Rows(m, RowSize(nCols))| ==>
              !InRow(Rows(Eliminated(m, nCols), RowSize(nCols))[r], c)
  {
    var size := RowSize(nCols);
    var rows := Rows(m, size);
    RowsSplit(m, size);
    var result := Steps(rows, MaxRank(nCols, |m|));
    StepsUniform(rows, MaxRank(nCols, |m|), size);
    StepsEchelon(rows, MaxRank(nCols, |m|), size);
    RowsOfFlatten(result, m[|Flatten(rows)|..], size);
  }

  /** The pivot search of one round: the first full row from `pivot_idx` on that holds
      vertex `pivot_idx`, or `pivot_idx` itself. */
  method FindPivotRow(matrix: array<Word>, rowSize: nat, pivotIdx: nat) returns (lastRowIdx: nat)
    requires rowSize > 0
    ensures lastRowIdx == FindPivot(Rows(matrix[..], rowSize), pivotIdx)
  {
    var rows := Rows(matrix[..], rowSize);
    lastRowIdx := pivotIdx;
    var rowIdx := pivotIdx;
    while rowIdx < |rows|
      invariant pivotIdx <= rowIdx
      invariant PivotFrom(rows, pivotIdx, rowIdx) == FindPivot(rows, pivotIdx)
    {
      if ChunkContains(rows[rowIdx], pivotIdx) {
        lastRowIdx := rowIdx;
        return;
      }
      rowIdx := rowIdx + 1;
    }
  }

  /** The XOR pass of one round: every full row below the pivot row that holds vertex
      `pivot_idx` is XORed with the pivot row. */
  method XorLowerRows(matrix: array<Word>, rowSize: nat, pivotIdx: nat,
                      ghost rows: seq<seq<Word>>, ghost tail: seq<Word>)
    requires rowSize > 0 && Uniform(rows, rowSize) && |tail| < rowSize && pivotIdx < |rows|
    requires matrix[..] == Flatten(rows) + tail
    modifies matrix
    ensures matrix[..] == Flatten(XorBelow(rows, pivotIdx, |rows|)) + tail
  {
    var pivotStart := RowStart(pivotIdx, rowSize);
    XorPassStart(rows, tail, rowSize, pivotIdx, matrix[..], pivotStart);
    var pivot := matrix[pivotStart..pivotStart + rowSize];
    var nRows := |Rows(matrix[..], rowSize)|;
    var rowIdx := pivotIdx + 1;
    while rowIdx < nRows
      invariant pivotIdx < rowIdx <= nRows == |rows|
      invariant matrix[..] == Flatten(XorBelow(rows, pivotIdx, rowIdx)) + tail
      invariant pivot == rows[pivotIdx]
    {
      XorRow(matrix, rowSize, pivotIdx, rowIdx, pivot, rows, tail);
      rowIdx := rowIdx + 1;
    }
  }

  /** The closure of the parallel pass (lines 47-51) on row `rowIdx`: XOR the pivot row into
      it when it holds vertex `pivotIdx`, which extends the pass by that row. */
  method XorRow(matrix: array<Word>, rowSize: nat, pivotIdx: nat, rowIdx: nat, pivot: seq<Word>,
                ghost rows: seq<seq<Word>>, ghost tail: seq<Word>)
    requires rowSize > 0 && Uniform(rows, rowSize) && pivotIdx < rowIdx < |rows| && pivot == rows[pivotIdx]
    requires matrix[..] == Flatten(XorBelow(rows, pivotIdx, rowIdx)) + tail
    modifies matrix
    ensures matrix[..] == Flatten(XorBelow(rows, pivotIdx, rowIdx + 1)) + tail
  {
    var start := RowStart(rowIdx, rowSize);
    ghost var before := matrix[..];
    XorPassSegment(rows, tail, rowSize, pivotIdx, rowIdx, before, start);
    if ChunkContains(matrix[start..start + rowSize], pivotIdx) {
      XorSlices(matrix, start, start + rowSize, pivot);
      XorPassStep(rows, tail, rowSize, pivotIdx, rowIdx, before, matrix[..], start);
    } else {
      XorPassStep(rows, tail, rowSize, pivotIdx, rowIdx, before, before, start);
    }
  }

  /** Before the XOR pass: the pivot row is the segment at `p * size`, and the buffer has as
      many full rows as the row view. */
  lemma {:induction false} XorPassStart(rows: seq<seq<Word>>, tail: seq<Word>, size: nat, p: nat,
                                        buf: seq<Word>, start: int)
    requires size > 0 && Uniform(rows, size) && |tail| < size && p < |rows|
    requires buf == Flatten(rows) + tail && start == p * size
    ensures start + size <= |buf| && buf[start..start + size] == rows[p]
    ensures |Rows(buf, size)| == |rows|
  {
    RowSegment(rows, tail, size, p);
    RowsOfFlatten(rows, tail, size);
  }

  /** Midway through the XOR pass, row `k` is still untouched in the buffer. */
  lemma {:induction false} XorPassSegment(rows: seq<seq<Word>>, tail: seq<Word>, size: nat, p: nat, k: nat,
                                          buf: seq<Word>, start: int)
    requires Uniform(rows, size) && p < k < |rows|
    requires buf == Flatten(XorBelow(rows, p, k)) + tail && start == k * size
    ensures start + size <= |buf|
    ensures buf[start..start + size] == rows[k]
  {
    var cur := XorBelow(rows, p, k);
    XorBelowAt(rows, p, k);
    assert Uniform(cur, size);
    RowSegment(cur, tail, size, k);
  }

  /** One row of the XOR pass: rewriting row `k`'s segment with its XOR against the pivot
      row when it holds vertex `p`, and leaving it otherwise, extends the pass by a row. */
  lemma {:induction false} XorPassStep(rows: seq<seq<Word>>, tail: seq<Word>, size: nat, p: nat, k: nat,
                                       before: seq<Word>, after: seq<Word>, start: int)
    requires Uniform(rows, size) && p < k < |rows|
    requires before == Flatten(XorBelow(rows, p, k)) + tail && start == k * size
    requires start + size <= |before| && before[start..start + size] == rows[k]
    requires InRow(rows[k], p) ==>
               after == before[..start] + XorRows(before[start..start + size], rows[p]) + before[start + size..]
    requires !InRow(rows[k], p) ==> after == before
    ensures after == Flatten(XorBelow(rows, p, k + 1)) + tail
  {
    var cur := XorBelow(rows, p, k);
    XorBelowUniform(rows, p, k, size);
    if InRow(rows[k], p) {
      RowUpdate(cur, tail, size, k, XorRows(rows[k], rows[p]));
    }
  }

  /** What one round of the method needs about the row view `cur` held in the buffer. */
  lemma {:induction false} RoundFacts(cur: seq<seq<Word>>, tail: seq<Word>, size: nat, p: nat)
    requires size > 0 && Uniform(cur, size) && |tail| < size && p < |cur|
    ensures Rows(Flatten(cur) + tail, size) == cur
    ensures p <= FindPivot(cur, p) < |cur|
    ensures Uniform(SwapRows(cur, p, FindPivot(cur, p)), size)
    ensures FindPivot(cur, p) == p ==> SwapRows(cur, p, FindPivot(cur, p)) == cur
    ensures FindPivot(cur, p) != p ==>
              p * size + size <= FindPivot(cur, p) * size
              && FindPivot(cur, p) * size + size <= |Flatten(cur) + tail|
              && SwapSegments(Flatten(cur) + tail, p * size, FindPivot(cur, p) * size, size)
                 == Flatten(SwapRows(cur, p, FindPivot(cur, p))) + tail
    ensures Step(cur, p) == XorBelow(SwapRows(cur, p, FindPivot(cur, p)), p, |cur|)
  {
    RowsOfFlatten(cur, tail, size);
    FindPivotSpec(cur, p);
    var last := FindPivot(cur, p);
    if last != p {
      SwapChunksRows(cur, tail, size, p, last);
    } else {
      assert SwapRows(cur, p, last) == cur;
    }
  }

  /** One round of `gaussian_elimination` (lines 36-51 of the source) on a buffer holding the
      row view `cur`: pivot search, swap, XOR pass. */
  method EliminationRound(matrix: array<Word>, rowSize: nat, pivotIdx: nat,
                          ghost cur: seq<seq<Word>>, ghost tail: seq<Word>)
    requires rowSize > 0 && Uniform(cur, rowSize) && |tail| < rowSize && pivotIdx < |cur|
    requires matrix[..] == Flatten(cur) + tail
    modifies matrix
    ensures matrix[..] == Flatten(Step(cur, pivotIdx)) + tail
  {
    RoundFacts(cur, tail, rowSize, pivotIdx);
    var lastRowIdx := FindPivotRow(matrix, rowSize, pivotIdx);
    SwapChunks(matrix, rowSize, pivotIdx, lastRowIdx);
    XorLowerRows(matrix, rowSize, pivotIdx, SwapRows(cur, pivotIdx, lastRowIdx), tail);
  }

  /** `gaussian_elimination`: forward elimination of the first `max_rank` pivots, in place. */
  method GaussianElimination(matrix: array<Word>, nCols: nat)
    requires MaxRank(nCols, matrix.Length) <= |Rows(matrix[..], RowSize(nCols))|
    modifies matrix
    ensures matrix[..] == Eliminated(old(matrix[..]), nCols)
  {
    var maxRank := Min(nCols, matrix.Length);
    var rowSize := (nCols + 64) / 64;
    ghost var rows := Rows(matrix[..], rowSize);
    RowsSplit(matrix[..], rowSize);
    ghost var tail := matrix[..][|Flatten(rows)|..];
    var pivotIdx := 0;
    while pivotIdx < maxRank
      invariant pivotIdx <= maxRank
      invariant matrix[..] == Flatten(Steps(rows, pivotIdx)) + tail
    {
      StepsUniform(rows, pivotIdx, rowSize);
      EliminationRound(matrix, rowSize, pivotIdx, Steps(rows, pivotIdx), tail);
      pivotIdx := pivotIdx + 1;
    }
  }
}
