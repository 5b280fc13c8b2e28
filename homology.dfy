/** `boundary_matrix`: the per-simplex face-index lists packed into bit rows of
    `(n_cols + 63) / 64` words, one row per list, in list order. */
module Homology {
  import opened Words
  import opened Chunks
  import opened VecOps
  import LinAlg

  /** `n_chunks` of `boundary_matrix`. */
  function NChunks(nCols: nat): nat {
    (nCols + 63) / 64
  }

  /** Every index of every list fits a row of `nChunks` words. */
  predicate AllFit(indexMap: seq<seq<nat>>, nChunks: nat) {
    forall i :: 0 <= i < |indexMap| ==> Fits(indexMap[i], nChunks)
  }

  /** The packed rows, one per index list. */
  function PackedRows(indexMap: seq<seq<nat>>, nChunks: nat): (r: seq<seq<Word>>)
    requires AllFit(indexMap, nChunks)
    ensures |r| == |indexMap|
  {
    if |indexMap| == 0 then []
    else PackedRows(indexMap[..|indexMap| - 1], nChunks) + [FromIndices(indexMap[|indexMap| - 1], nChunks)]
  }

  lemma {:induction false} PackedRowsAt(indexMap: seq<seq<nat>>, nChunks: nat)
    requires AllFit(indexMap, nChunks)
    ensures forall i :: 0 <= i < |indexMap| ==> PackedRows(indexMap, nChunks)[i] == FromIndices(indexMap[i], nChunks)
    ensures Uniform(PackedRows(indexMap, nChunks), nChunks)
  {
    if |indexMap| > 0 {
      PackedRowsAt(indexMap[..|indexMap| - 1], nChunks);
    }
  }

  /** `boundary_matrix`: each list becomes a row through `bitvec_from_slice`, appended to the
      growing buffer. A list index must fit the row, otherwise the bit write is out of bounds. */
  method BoundaryMatrix(indexMap: seq<seq<nat>>, nCols: nat) returns (matrix: seq<Word>)
    requires AllFit(indexMap, NChunks(nCols))
    ensures matrix == Flatten(PackedRows(indexMap, NChunks(nCols)))
  {
    var nChunks := (nCols + 63) / 64;
    matrix := [];
    var i := 0;
    while i < |indexMap|
      invariant 0 <= i <= |indexMap|
      invariant matrix == Flatten(PackedRows(indexMap[..i], nChunks))
    {
      var bitVec := BitvecFromSlice(indexMap[i], nChunks);
      FlattenConcat(PackedRows(indexMap[..i], nChunks), [bitVec]);
      FlattenOne(bitVec);
      assert indexMap[..i + 1][..i] == indexMap[..i];
      matrix := matrix + bitVec;
      i := i + 1;
    }
    assert indexMap[..i] == indexMap;
  }

  /** Packed rows of `nChunks` words, concatenated, read back as the same rows; row `i`
      holds exactly the indices listed in `indexMap[i]`. */
  lemma PackedRowsSpec(indexMap: seq<seq<nat>>, nChunks: nat)
    requires nChunks > 0 && AllFit(indexMap, nChunks)
    ensures |Flatten(PackedRows(indexMap, nChunks))| == |indexMap| * nChunks
    ensures Rows(Flatten(PackedRows(indexMap, nChunks)), nChunks) == PackedRows(indexMap, nChunks)
    ensures forall i, j: nat :: 0 <= i < |indexMap| ==>
              (InRow(PackedRows(indexMap, nChunks)[i], j) <==> j in indexMap[i])
  {
    var rows := PackedRows(indexMap, nChunks);
    PackedRowsAt(indexMap, nChunks);
    FlattenLength(rows, nChunks);
    assert Flatten(rows) + [] == Flatten(rows);
    RowsOfFlatten(rows, [], nChunks);
    forall i | 0 <= i < |indexMap|
      ensures forall j: nat :: InRow(rows[i], j) <==> j in indexMap[i]
    {
      FromIndicesSpec(indexMap[i], nChunks);
    }
  }

  /** The packed buffer has `|index_map| * n_chunks` words; read back in rows of `n_chunks`
      words, row `i` holds exactly the indices listed in `index_map[i]`, so an empty list
      gives an all-zero row. */
  lemma BoundaryMatrixSpec(indexMap: seq<seq<nat>>, nCols: nat)
    requires NChunks(nCols) > 0 && AllFit(indexMap, NChunks(nCols))
    ensures |Flatten(PackedRows(indexMap, NChunks(nCols)))| == |indexMap| * NChunks(nCols)
    ensures Rows(Flatten(PackedRows(indexMap, NChunks(nCols))), NChunks(nCols)) == PackedRows(indexMap, NChunks(nCols))
    ensures forall i, j: nat :: 0 <= i < |indexMap| ==>
              (InRow(PackedRows(indexMap, NChunks(nCols))[i], j) <==> j in indexMap[i])
    ensures forall i :: 0 <= i < |indexMap| && |indexMap[i]| == 0 ==> IsNull(PackedRows(indexMap, NChunks(nCols))[i])
  {
    PackedRowsSpec(indexMap, NChunks(nCols));
  }

  /** The row width of the packed matrix agrees with the row width the elimination reads
      exactly when the column count is not a multiple of 64. */
  lemma RowWidths(nCols: nat)
    ensures NChunks(nCols) == LinAlg.RowSize(nCols) <==> nCols % 64 != 0
    ensures nCols % 64 == 0 ==> LinAlg.RowSize(nCols) == NChunks(nCols) + 1
  {
  }
}
