# Clique-complex Betti numbers over packed bit rows

This project models the core of a small Rust library. The library computes Betti numbers of the flag (clique)
complex of an undirected graph. The model covers these pieces:

- the bit-row algebra of `src/vecops.rs`;
- the GF(2) forward elimination of `src/linalg.rs`;
- the boundary-matrix packing of `src/homology.rs`;
- clique growth, the boundary index lists and the `betti` driver loop of `src/clique.rs`.

The library works like this. A set of vertices is a *row*: a run of `u64` words in which vertex `q`
sits in word `q / 64` at bit `63 - q % 64`, so the most significant bit is the lowest vertex. A
matrix or clique bank is a flat buffer of such rows, `chunk_size` words each. `betti` reads the
adjacency lists into packed rows. It then repeats rounds:

1. prune vertices whose degree is below the clique size;
2. grow every clique by the common neighbours above its largest vertex;
3. index the faces of the new cliques and pack them into a boundary matrix;
4. row-reduce the matrix over GF(2) and take its rank;
5. push `new_cliques.len() - prev_rank - rank`.

The rounds stop when no clique grows.

## How the model is built

- `Words` (words.dfy): a `u64` is a `Word`, 64 booleans with index 0 the most significant bit.
  `And`, `Xor`, `Not`, `Bit` (`1 << (63 - p)`), `Pred` (`x - 1`), `LeadingZeros`,
  `TrailingZeros` and `CountOnes` are defined on it. Lemmas tie them to the unsigned value
  `Num` and to the list of set positions.
- `Chunks` (chunks.dfy): `Rows(buf, size)` is what `chunks_exact` yields, and `Flatten` is
  the concatenation `extend` builds. Lemmas relate a row to its slice of the buffer.
- `VecOps` (vecops.dfy): `InRow(row, q)` is the set a row stands for. `Positions` is the
  ascending vertex list, and every operation of `src/vecops.rs` is stated against these two.
  The in-place operations are methods on `array<Word>`. The loops of `indexes`,
  `find_set_bits_positions`, `bitvec_from_slice`, `faces_of` and `remove_single_set_bit`
  are methods proved equal to specification functions.
- `LinAlg` (linalg.dfy): `gaussian_elimination` is an in-place method on `array<Word>`. It is
  proved equal to `Eliminated`, the rounds `Step` applied to the row view. `Step` is pivot
  search, row swap, then XOR of the pivot row into the lower rows holding the pivot column.
  The echelon property is proved about `Steps`.
- `Homology` (homology.dfy): `boundary_matrix` is the concatenation of the rows
  `bitvec_from_slice` packs.
- `Clique` (clique.dfy):
  - pruning and growth are a method on the matrix buffer, proved against `Pruned` and
    `NewCliques`;
  - `make_boundary_map` threads a `map<seq<Word>, nat>` through the faces;
  - `betti` is a loop proved equal to `BettiSpec`, a recursive function over rounds
    (`Rounds`). Its measure is the number of matrix rows minus the clique size, which grows
    by one each round.
  - Panics of the source that the driver can reach are `Err` outcomes of the `Error`
    datatype: `NoSeedCliques`, `Underflow`, `FaceOutOfRange` and `PivotOutOfRange`. The
    `Underflow` panic happens only in a build with overflow checks (see below).

### Where the code departs from what it evidently means (the model follows the code)

- The row width of the elimination is `(n_cols + 64) / 64` (src/linalg.rs:34). The width of
  `boundary_matrix` is `(n_cols + 63) / 64` (src/homology.rs:54). They agree exactly when
  `n_cols % 64 != 0`; otherwise the elimination's rows are one word wider
  (`Homology.RowWidths`). Both evidently mean one row of `n_cols` bits, `ceil(n_cols / 64)`
  words, which only `boundary_matrix` computes in every case.
- `max_rank` is the smaller of `n_cols` and the buffer's word count, not its row count
  (src/linalg.rs:33). The split at src/linalg.rs:45 panics when a pivot row lies past the last
  full row. `GaussianElimination` requires that this does not happen. In `betti` that case is
  the `PivotOutOfRange` outcome.
- `make_boundary_map` sizes `index_map` by the WORD count of the new cliques
  (src/clique.rs:90). The lists past the full rows stay empty, so they become all-zero rows.
  It returns the WORD count of the old cliques as `n_cols` (src/clique.rs:104). When a face is
  not already in the table, the code enters it with the current table size
  (src/clique.rs:98-99). The model keeps that path.
- `betti` pushes `new_cliques.len() - prev_rank - rank` (src/clique.rs:137). `new_cliques.len()`
  is a word count, and the subtraction is in `usize`.
  - A Betti number, a dimension less two ranks, is never negative, but the code does not
    ensure it: on a triangle the second round computes `1 - 2 - 1`. A build with overflow
    checks (Cargo's debug profile) panics there, and the model returns `Underflow` in that
    case (`Clique.RoundsUnderflow`). A release build wraps around instead: the triangle gives
    `[1, 18446744073709551614]`. The model does not follow that path.
  - Nothing is pushed before the first growth. A graph with vertices but no edges therefore
    gives `[]`, not `[1]` (`Clique.BettiNoEdges`).
- `linalg::rank` is called at src/clique.rs:136 but is defined nowhere in the repository.
  `LinAlg.Rank` is an ASSUMED definition: the number of rows of `(n_cols + 64) / 64` words that
  hold any vertex.

## Model

| member | source | states |
|---|---|---|
| `Words.BitValue` | src/vecops.rs:77 | `Bit(p)` has the unsigned value `2^(63 - p)`, i.e. it is `1 << (63 - p)` |
| `Words.DecValue` | src/vecops.rs:114 | `Dec` is `x - 1`: one less for a non-zero value, and all ones (wrap-around) from zero |
| `Words.ClearLowest` | src/vecops.rs:114 | `x & (x - 1)` clears exactly the lowest-order set bit, which is the largest set position |
| `Words.AndAbsorbs` | src/vecops.rs:67 | `a & b == b` exactly when every set position of `b` is set in `a` |
| `Words.AndBitNonZero` | src/linalg.rs:24 | `(w & (1 << (63 - b))) != 0` exactly when position `b` of `w` is set |
| `Words.ZeroValue` | src/vecops.rs:26 | a word compares equal to `0` exactly when no bit is set |
| `Words.LeadingZeros` | src/vecops.rs:54 | `leading_zeros` is the smallest set position, and 64 exactly for the zero word |
| `Words.TrailingZeros` | src/vecops.rs:111 | `trailing_zeros` names the largest set position `63 - r`, and is 64 exactly for the zero word |
| `Words.CountOnesBound` | src/vecops.rs:62 | `count_ones` of a word is at most 64 |
| `Words.WordPositionsFacts` | src/vecops.rs:50-59 | the positions of a word, ascending, are each set position once, and there are `count_ones` of them |
| `Words.DescendingPositionsFacts` | src/vecops.rs:106-118 | the positions in lowest-order-bit-first order are each set position once, descending, `count_ones` of them |
| `Words.AscendingPop` | src/vecops.rs:54-56 | flipping the leading set bit removes the first position from the ascending list |
| `Words.DescendingPop` | src/vecops.rs:111-114 | `x & (x - 1)` removes the first position from the descending list |
| `Chunks.RowsSplit` | src/linalg.rs:38 | every row `chunks_exact` yields has the chunk size, and the buffer is those rows followed by a remainder shorter than a row |
| `Chunks.RowsOfFlatten` | src/homology.rs:57-60 | reading a concatenation of full rows back in chunks gives the same rows |
| `Chunks.RowSlice` | src/vecops.rs:4 | the slice `buf[k * size..(k + 1) * size]` is row `k` of `chunks_exact` and lies inside the buffer |
| `Chunks.RowCount` | src/linalg.rs:45 | `chunks_exact` yields `len / size` rows |
| `VecOps.BatchIntersect` | src/vecops.rs:2-14 | the running AND, with the early return on an all-zero accumulator, returns the AND of the rows at all listed indexes |
| `VecOps.MeetSpec` | src/vecops.rs:5-12 | over rows of one width the intersection has that width and holds exactly the vertices common to all listed rows |
| `VecOps.MeetAbsorbs` | src/vecops.rs:7-10 | once the accumulator is all zero, ANDing the remaining rows leaves it unchanged, so returning early gives the same result |
| `VecOps.ToVec` | src/vecops.rs:4 | `to_vec` gives a fresh buffer holding the same words |
| `VecOps.ClearBits` | src/vecops.rs:16-22 | the slice becomes the row with the listed vertices cleared; the words outside the slice are unchanged |
| `VecOps.ClearedSpec` | src/vecops.rs:17-21 | after clearing, the row holds exactly its former vertices that are not listed |
| `VecOps.ClearBitSpec` | src/vecops.rs:18-20 | clearing vertex `i` removes `i` and keeps every other vertex |
| `VecOps.IsNull` | src/vecops.rs:24-31 | `is_null` is true exactly when the row holds no vertex |
| `VecOps.NullWords` | src/vecops.rs:25-29 | every word is zero exactly when the row holds no vertex |
| `VecOps.AndSlices` | src/vecops.rs:33-37 | `slice1` becomes the word-wise AND over the shorter length; its further words stay |
| `VecOps.AndRowsSpec` | src/vecops.rs:34-36 | a vertex survives the AND exactly when it is in `slice1` and, if its word is within `slice2`, in `slice2` |
| `VecOps.Indexes` | src/vecops.rs:39-48 | `indexes` returns the row's vertex list (word positions offset by 64 per word) |
| `VecOps.IndexesStep` | src/vecops.rs:43-45 | one word of the loop appends that word's positions offset by `64 * i` |
| `VecOps.PositionsFacts` | src/vecops.rs:39-48 | the vertex list is strictly ascending, holds exactly the row's vertices, and has `n_elements` entries |
| `VecOps.PositionsDetermine` | src/vecops.rs:39-48 | two rows of the same width with the same vertex list are the same row |
| `VecOps.FindSetBitsPositions` | src/vecops.rs:50-59 | the loop returns the word's set positions in ascending order |
| `VecOps.LeadingStep` | src/vecops.rs:53-57 | one round moves the leading position to the output and leaves strictly fewer positions, so the loop ends |
| `VecOps.NElementsCountsPositions` | src/vecops.rs:61-63 | `n_elements` equals the length of `indexes` |
| `VecOps.NElementsBound` | src/vecops.rs:61-63 | a row holds at most 64 vertices per word |
| `VecOps.ContainsAll` | src/vecops.rs:65-72 | `contains_all` is true exactly when, over the words both rows have, every vertex of `slice2` is in `slice1` |
| `VecOps.ContainsAllWords` | src/vecops.rs:66-70 | the word test `a & b == b` on every shared word is the same as the subset statement |
| `VecOps.ContainsAllReflexive` | src/vecops.rs:65-72 | every row contains itself |
| `VecOps.Insert` | src/vecops.rs:74-79 | the slice becomes the row with vertex `value` set, and the returned copy equals the updated slice |
| `VecOps.SetBitSpec` | src/vecops.rs:75-77 | setting vertex `v` adds exactly `v` and keeps every other vertex |
| `VecOps.SetBitAbove` | src/vecops.rs:77 | setting a vertex above all of the row's vertices appends it to the vertex list |
| `VecOps.BitvecFromSlice` | src/vecops.rs:81-89 | the loop returns `n_chunks` words with each listed vertex set in turn |
| `VecOps.FromIndicesSpec` | src/vecops.rs:82-88 | the row built from a list holds exactly the listed vertices, duplicates collapsing |
| `VecOps.IndexesRoundTrip` | src/vecops.rs:81-89 | `indexes(bitvec_from_slice(S, n))` is `S` sorted without duplicates, for every `S` below `64 * n` |
| `VecOps.FacesOf` | src/vecops.rs:91-104 | the loop returns the faces of the row in `faces_of` order |
| `VecOps.FacesSpec` | src/vecops.rs:91-104 | there are `n_elements` faces; face `j` is the row without exactly its `j`-th listed vertex; the removed vertices are each vertex of the row; they come word by word, largest vertex first within a word |
| `VecOps.FaceOfWord` | src/vecops.rs:98-99 | replacing word `i` by itself with position `d` cleared removes exactly vertex `64 * i + d` |
| `VecOps.RemoveSingleSetBit` | src/vecops.rs:106-118 | one copy of the word per set bit, with that bit cleared, lowest-order bit first |
| `VecOps.TrailingStep` | src/vecops.rs:110-115 | one round pushes the copy without the lowest-order set bit and leaves strictly fewer bits, so the loop ends |
| `LinAlg.XorSlices` | src/linalg.rs:3-7 | the segment becomes its word-wise XOR with `slice2` over the shorter length; all other words are unchanged |
| `LinAlg.XorRowsTwice` | src/linalg.rs:3-7 | XOR with the same second argument twice restores the first |
| `LinAlg.XorRowsSpec` | src/linalg.rs:4-6 | XOR toggles exactly the vertices of `slice2` that fall within `slice1`'s words |
| `LinAlg.SwapChunks` | src/linalg.rs:9-17 | with `i == j` nothing changes; otherwise rows `i` and `j` of `n_chunks` words are exchanged and every other element stays |
| `LinAlg.SwapWithSlice` | src/linalg.rs:16 | the two segments are exchanged and nothing else changes |
| `LinAlg.SwapChunksRows` | src/linalg.rs:13-16 | exchanging the two segments of the buffer exchanges rows `i` and `j` of its row view |
| `LinAlg.ChunkContains` | src/linalg.rs:19-29 | false for a position past the slice, otherwise true exactly when the row holds the vertex |
| `LinAlg.ChunkContainsPositions` | src/linalg.rs:19-29 | `chunk_contains` agrees with membership in the `indexes` list |
| `LinAlg.FindPivotSpec` | src/linalg.rs:36-43 | the pivot search finds the first row at or after `p` holding vertex `p`, and gives `p` when there is none |
| `LinAlg.FindPivotRow` | src/linalg.rs:36-43 | the search loop over `chunks_exact(row_size).skip(pivot_idx)` returns that row |
| `LinAlg.XorBelowAt` | src/linalg.rs:47-51 | after the pass, each row below the pivot that held the pivot vertex is XORed with the pivot row; every other row is unchanged |
| `LinAlg.XorLowerRows` | src/linalg.rs:45-51 | the pass over the rows below the pivot row rewrites the buffer to that row view, followed by the untouched remainder |
| `LinAlg.XorRow` | src/linalg.rs:48-50 | the closure on one row extends the pass by that row |
| `LinAlg.EliminationRound` | src/linalg.rs:36-51 | one round (search, swap, XOR pass) rewrites the buffer to `Step` of its row view |
| `LinAlg.StepWithoutPivot` | src/linalg.rs:36-51 | when no row at or after `p` holds vertex `p`, the round leaves the rows unchanged |
| `LinAlg.StepClears` | src/linalg.rs:36-51 | a round keeps the columns already cleared below the diagonal cleared, and clears column `p` below row `p` |
| `LinAlg.StepsEchelon` | src/linalg.rs:35-52 | after the rounds for pivots `0 .. n - 1`, no row below row `c` holds vertex `c`, for each `c < n` |
| `LinAlg.GaussianElimination` | src/linalg.rs:32-53 | the buffer becomes the `max_rank` rounds applied to its row view, followed by the untouched remainder |
| `LinAlg.EliminatedEchelon` | src/linalg.rs:32-53 | after elimination the row count and row widths are kept, and for every column `c < max_rank` no row below `c` has bit `c` |
| `LinAlg.NonNullRows` | src/clique.rs:136 | the count is at most the row count, zero exactly when all rows are empty, and full exactly when none is |
| `LinAlg.Rank` | src/clique.rs:136 | the assumed `rank` never exceeds the number of rows |
| `Homology.BoundaryMatrix` | src/homology.rs:53-63 | the result is the concatenation, in `index_map` order, of each list packed by `bitvec_from_slice` into `n_chunks` words |
| `Homology.PackedRowsAt` | src/homology.rs:57-60 | packed row `i` is `bitvec_from_slice(index_map[i])`, and all rows have `n_chunks` words |
| `Homology.PackedRowsSpec` | src/homology.rs:55-60 | the packed buffer has `len * n_chunks` words, reads back as the same rows, and row `i` has bit `j` exactly when `j` is in list `i` |
| `Homology.BoundaryMatrixSpec` | src/homology.rs:53-63 | length `index_map.len() * ((n_cols + 63) / 64)`, rows in `index_map` order, bit `j` of row `i` exactly when `j` is listed, an empty list gives an all-zero row |
| `Homology.RowWidths` | src/homology.rs:54 | the packing width equals the elimination width exactly when `n_cols % 64 != 0`; otherwise it is one word narrower |
| `Clique.IndicesSmallerThan` | src/clique.rs:23-29 | the result holds exactly the positions whose value is below the clique size |
| `Clique.IndicesSorted` | src/clique.rs:24-28 | those positions come in strictly ascending order |
| `Clique.BinarySearch` | src/clique.rs:59-62 | `Ok(index)` names a position holding the value; `Err(index)` is the insertion point: smaller values before it, larger ones from it |
| `Clique.SkipPoint` | src/clique.rs:59-64 | skipping to the search result leaves exactly the common neighbours above the clique's largest vertex |
| `Clique.MaxVertex` | src/clique.rs:56 | `vertii.last()` is a vertex of the clique and no vertex of it is larger |
| `Clique.CommonNeighboursSpec` | src/clique.rs:51-54 | the common neighbours are ascending and are exactly the vertices in the row of every clique vertex |
| `Clique.Adjacent` | src/clique.rs:64-68 | the filter keeps exactly the candidates that have a row and whose row contains the whole clique |
| `Clique.CandidatesSpec` | src/clique.rs:56-72 | a vertex is added exactly when it has a row, lies above the clique's largest vertex, is in every member's pruned row, and its own pruned row holds every member |
| `Clique.CandidatesSorted` | src/clique.rs:59-64 | the added vertices come in ascending order |
| `Clique.ExtensionsSpec` | src/clique.rs:64-73 | each new clique is as wide as its source, lists the source's vertices followed by the added one, and has one vertex more |
| `Clique.ExtensionsDistinct` | src/clique.rs:59-73 | the extensions of one clique are pairwise distinct, and each one's vertex list less its last entry is the clique's |
| `Clique.GrowClique` | src/clique.rs:64-73 | the loop over the skipped common neighbours pushes the clique with each neighbour that passes `contains_all` inserted, in order |
| `Clique.ExtendClique` | src/clique.rs:50-78 | the closure of the `flat_map` returns the extensions of the clique |
| `Clique.PruneRow` | src/clique.rs:46 | clearing the low-degree vertices in one row extends the pruning by that row |
| `Clique.PruneRows` | src/clique.rs:44-46 | the matrix buffer becomes the pruned buffer |
| `Clique.PrunedSpec` | src/clique.rs:43-46 | pruning keeps the row count and widths; each row afterwards holds exactly its former vertices whose degree is not below the clique size; bits are only cleared |
| `Clique.PruneKeepsSeeds` | src/clique.rs:43-46 | pruning keeps every vertex of the matrix a row index and keeps the clique bank a bank of seeds |
| `Clique.NextCliques` | src/clique.rs:31-82 | without a full clique row: the `NoSeedCliques` error and the matrix unchanged; otherwise the matrix is pruned by the first clique's size and the result is the extensions of every clique, block by block in bank order |
| `Clique.GrowBank` | src/clique.rs:48-81 | the concatenated extensions of the bank's cliques, in bank order |
| `Clique.NewCliquesSpec` | src/clique.rs:48-81 | every new clique is as wide as the rows, is again a seed, and has `s + 1` vertices when the bank's have `s` |
| `Clique.NewCliquesDistinct` | src/clique.rs:48-81 | a bank with no clique repeated grows new cliques with none repeated, each the vertex list of a bank clique plus one vertex |
| `Clique.AssignFacesSpec` | src/clique.rs:97-101 | looking up faces keeps every table entry, enters only faces, gives each face the index the table then holds, and keeps indices dense |
| `Clique.AssignSimplicesSpec` | src/clique.rs:95-103 | the final table extends the seed table and each simplex's list gives its faces' final indices, in `faces_of` order |
| `Clique.SeedTableSpec` | src/clique.rs:91-94 | the seeded table's keys are exactly the lower cliques, each mapped to a position where it occurs, the last one (`insert` overwrites) |
| `Clique.SeedTableDistinct` | src/clique.rs:92-93 | with no lower clique repeated, lower clique `k` has index `k` and the table is dense |
| `Clique.SeedLookup` | src/clique.rs:91-94 | the insertion loop builds the seeded table |
| `Clique.FaceIndices` | src/clique.rs:97-101 | the `entry(face).or_insert(len)` loop gives the table and index list of `AssignFaces` |
| `Clique.FaceLists` | src/clique.rs:90-103 | the index lists of the full rows, padded with empty lists to one per word |
| `Clique.MakeBoundaryMap` | src/clique.rs:85-105 | the method returns the boundary map function's lists and column count |
| `Clique.BoundaryMapSpec` | src/clique.rs:85-105 | one list per word of the new cliques; full row `i` lists `n_elements` indices, those of its faces; later lists are empty; `n_cols` is the old cliques' word count; with distinct lower cliques, lower clique `k` keeps index `k` and every listed index is below the final table size |
| `Clique.ReadyBoundaryMap` | src/clique.rs:124-127 | in every round `betti` reaches, lower clique `k` keeps index `k` in a dense final table and every listed face index is below its size |
| `Clique.ChunkSize` | src/clique.rs:152 | `(n + 64) / 64` is positive and leaves room for every vertex `< n` |
| `Clique.ReadVertex` | src/clique.rs:156-160 | one iteration appends the packed neighbour row, the singleton clique row and the degree of vertex `i` |
| `Clique.ReadAdjacencyMatrix` | src/clique.rs:148-162 | returns the packed neighbour lists, the singleton cliques, the list lengths (duplicates counted) and `chunk_size = (n + 64) / 64` |
| `Clique.AdjacencyRowsSpec` | src/clique.rs:158 | matrix row `i` has `chunk_size` words and holds exactly the neighbours listed for `i` |
| `Clique.SingletonRowsSpec` | src/clique.rs:157 | clique row `i` holds exactly vertex `i`, one vertex |
| `Clique.SingletonRowsDistinct` | src/clique.rs:157 | no two seed cliques are the same |
| `Clique.WellFormedFits` | src/clique.rs:152-158 | neighbours below the vertex count fit rows of `chunk_size` words |
| `Clique.Advance` | src/clique.rs:115-122 | when cliques grow, the next state is again ready for a round (seeds of one size, none repeated), the clique size is one larger and stays within the row count |
| `Clique.BoundaryRank` | src/clique.rs:124-136 | the rank of a round fails only with a face past the packed row or a pivot past the last full row |
| `Clique.RankOf` | src/clique.rs:124-136 | boundary map, packing, elimination and rank return `BoundaryRank` |
| `Clique.Rounds` | src/clique.rs:113-141 | the rounds never report a missing seed, only append to the numbers already pushed, and push at most one number per clique size still below the row count |
| `Clique.RoundsUnfold` | src/clique.rs:120-137 | no growth ends with the numbers pushed; a failing rank ends with its error; a too large rank ends with `Underflow` |
| `Clique.RoundsStep` | src/clique.rs:137-140 | a round that pushes goes on from the pruned matrix and the new cliques, with `new_cliques.len() - prev_rank - rank` pushed and `rank` carried |
| `Clique.RoundsDone` | src/clique.rs:120-122 | a round that grows no clique ends the loop with the numbers pushed so far |
| `Clique.RoundsRankFails` | src/clique.rs:124-136 | a round whose boundary rank fails ends with that error |
| `Clique.RoundsUnderflow` | src/clique.rs:137 | a round with `new_cliques.len() < prev_rank + rank` ends with `Underflow` |
| `Clique.BettiStart` | src/clique.rs:109-111 | the state `read_adjacency_matrix` builds is ready for the first round, and `betti` is the rounds from it with `prev_rank` 0 |
| `Clique.BettiBound` | src/clique.rs:107-143 | `betti` reports a missing seed exactly for a graph without vertices, and otherwise pushes fewer numbers than there are vertices |
| `Clique.BettiNoEdges` | src/clique.rs:113-122 | a graph with vertices and no edges returns `[]` |
| `Clique.GrowRound` | src/clique.rs:115-118 | the `next_cliques` call prunes the matrix and returns the new cliques of the round |
| `Clique.PushRound` | src/clique.rs:124-140 | either the loop's outcome is reached (rank error, underflow) or one number is pushed and the rounds still to come give the same outcome |
| `Clique.BettiRound` | src/clique.rs:115-141 | one iteration either stops with the outcome or pushes one number, keeps the row count and strictly grows the clique size |
| `Clique.Betti` | src/clique.rs:107-143 | the loop returns exactly the outcome of the rounds from the state `read_adjacency_matrix` builds |

## Left out

- src/lib.rs is not part of this model. It is Python-binding glue, and its exported function never reaches the pipeline.
- src/simplex.rs is not part of this model: nothing calls it.
- `SharedStatus`, `Simplex` and `discombobulate_faces` in src/homology.rs are dead code. `discombobulate_faces` iterates a hash map in an unspecified order.
- `transposed_index` and `transpose` (src/linalg.rs:55-66) are unused.
- Timing and printing are not modelled: `timeit!`, `fmt` and the `println!` calls. Neither is `enumerate_cliques`, whose result is a wall-clock string.
- `enumerate_cliques_list` (src/clique.rs:181-203) is a test-only driver marked not for use. Its loop is the `next_cliques` loop of `betti` without the rank computation.
- rayon is not modelled. `par_chunks_exact_mut`, `par_chunks_exact` and `flat_map` become sequential loops over the rows in order. The work items touch disjoint rows and `collect` keeps their order.
- hashbrown's `HashMap` is a Dafny `map`. Capacities and hashing are not modelled.
- A `u64` is a list of 64 booleans and a `usize` an unbounded natural number. Overflow of index arithmetic such as `i * chunk_size` is not modelled. The one `usize` underflow a run can reach (src/clique.rs:137) is the `Underflow` outcome, the panic of a build with overflow checks.
- `Clique.RoundsUnderflow`: models a build with overflow checks, where `new_cliques.len() - prev_rank - rank` below zero panics. A release build wraps the difference around modulo 2^64, pushes that number and goes on with the next round. The model does not follow that path.
- `linalg::rank` is defined nowhere in the repository. `LinAlg.Rank` is an assumed definition, not taken from source.
- `LinAlg.EliminatedEchelon`: states row count, row width and the echelon shape. It does not state that elimination preserves the GF(2) row span. That follows from `Step` being a swap and XORs of the pivot row, but no lemma states it.
- `Clique.Rounds`: promises no particular Betti values and no homological meaning of the numbers pushed. It states only the loop's shape and error outcomes.
- `Clique.Betti`: requires every listed neighbour to be a vertex (`WellFormed`). The source panics in `bitvec_from_slice` for a neighbour past `64 * chunk_size`. A neighbour between `n` and that bound can make the row slice at src/clique.rs:66 go out of range. The model does not follow those inputs.
- `Clique.NextCliques`: some panics are preconditions, not error outcomes:
  - a clique without a vertex, or with a vertex that has no matrix row (`batch_intersect` and the slice at src/clique.rs:66);
  - a pruned vertex past the row width (`clear_bits`).

  `betti` establishes these at every round.
- `LinAlg.GaussianElimination`: requires `max_rank` to be at most the number of full rows, since the split at src/linalg.rs:45 panics otherwise. `betti` reports that case as `PivotOutOfRange`.
- `LinAlg.SwapChunks`: requires `i == j`, or row `i` to end before row `j` and row `j` to fit the slice. The split at src/linalg.rs:15-16 panics otherwise.
- `Homology.BoundaryMatrix`: requires every index to fit a row of `n_chunks` words (`bitvec_from_slice` panics otherwise). `betti` reports that case as `FaceOutOfRange`.
- `VecOps.BatchIntersect`: requires a positive chunk size and a non-empty list of in-range row indexes. In the source an empty list or an out-of-range first index panics. A later out-of-range index panics only while the accumulator is not all zero: the early return at src/vecops.rs:7-9 comes first, so indexes `[0, 5]` on a one-row zero matrix return the zero row. The model does not follow those inputs. `next_cliques` passes only the vertices of a seed clique, and each of them has a row.
- `VecOps.ClearBits`, `VecOps.Insert` and `VecOps.BitvecFromSlice`: require every vertex to fit the row. The word index panics otherwise.
