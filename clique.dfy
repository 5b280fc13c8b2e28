/** The clique enumeration and the Betti-number loop (`src/clique.rs`): one round of clique
    growth over the packed adjacency rows, the boundary index lists between two dimensions,
    the packing of an adjacency list, and the round-by-round `betti` driver. */
module Clique {
  import opened Words
  import opened Chunks
  import opened VecOps
  import LinAlg
  import Homology

  /** The ways the pipeline stops short. The first, third and fourth are out-of-bounds
      indexing, a panic in every build. `Underflow` is the panic a build with overflow
      checks (Cargo's debug profile) raises; a release build instead wraps the `usize`
      difference around and goes on with that number. */
  datatype Error =
    | NoSeedCliques     // `next_cliques` on a clique buffer without a full row
    | Underflow         // `new_cliques.len() - prev_rank - rank` below zero in `usize`
    | FaceOutOfRange    // a boundary index past the words `boundary_matrix` allocates
    | PivotOutOfRange   // `max_rank` pivots where the row view has fewer rows

  datatype Result<T> = Ok(value: T) | Err(error: Error)

  // ----------------------------------------------------------------------------
  // `get_indices_smaller_than`

  /** The positions of `vec` whose value is below `cliqueSize`, ascending. */
  function IndicesSmallerThan(vec: seq<nat>, cliqueSize: nat): (r: seq<nat>)
    ensures forall q: nat {:trigger q in r} :: q in r <==> q < |vec| && vec[q] < cliqueSize
  {
    if |vec| == 0 then []
    else
      var last := |vec| - 1;
      var front := IndicesSmallerThan(vec[..last], cliqueSize);
      if vec[last] < cliqueSize then front + [last] else front
  }

  /** The positions come out in ascending order, each once. */
  lemma {:induction false} IndicesSorted(vec: seq<nat>, cliqueSize: nat)
    ensures StrictlyIncreasing(IndicesSmallerThan(vec, cliqueSize))
  {
    if |vec| > 0 {
      var last := |vec| - 1;
      var front := IndicesSmallerThan(vec[..last], cliqueSize);
      IndicesSorted(vec[..last], cliqueSize);
      if vec[last] < cliqueSize {
        assert forall q: nat :: q in front ==> q < last;
        AppendIncreasing(front, last);
      }
    }
  }

  /** Appending an element above all others keeps a list strictly increasing. */
  lemma AppendIncreasing(s: seq<nat>, v: nat)
    requires StrictlyIncreasing(s) && forall u :: u in s ==> u < v
    ensures StrictlyIncreasing(s + [v])
  {
    forall i, j | 0 <= i < j < |s + [v]|
      ensures (s + [v])[i] < (s + [v])[j]
    {
      assert s[i] in s;
    }
  }

  /** The last element of a strictly increasing list is its greatest. */
  lemma LastIsGreatest(s: seq<nat>)
    requires StrictlyIncreasing(s) && |s| > 0
    ensures forall u :: u in s ==> u <= s[|s| - 1]
  {
  }

  // ----------------------------------------------------------------------------
  // `binary_search` on an ascending list

  predicate Sorted(s: seq<nat>) {
    forall i, j :: 0 <= i < j < |s| ==> s[i] <= s[j]
  }

  /** `binary_search`: `found` with `s[index] == x`, or not found with `index` the point
      where `x` would go. */
  method BinarySearch(s: seq<nat>, x: nat) returns (found: bool, index: nat)
    requires Sorted(s)
    ensures index <= |s|
    ensures found ==> index < |s| && s[index] == x
    ensures !found ==> (forall j :: 0 <= j < index ==> s[j] < x) && (forall j :: index <= j < |s| ==> s[j] > x)
  {
    var lo, hi := 0, |s|;
    while lo < hi
      invariant 0 <= lo <= hi <= |s|
      invariant forall j :: 0 <= j < lo ==> s[j] < x
      invariant forall j :: hi <= j < |s| ==> s[j] > x
    {
      var mid := lo + (hi - lo) / 2;
      if s[mid] == x {
        return true, mid;
      } else if s[mid] < x {
        lo := mid + 1;
      } else {
        hi := mid;
      }
    }
    return false, lo;
  }

  // ----------------------------------------------------------------------------
  // Growing one clique: the body of the `flat_map` in `next_cliques`

  /** Every vertex of every row has a row of its own. */
  ghost predicate Closed(rows: seq<seq<Word>>) {
    forall r: nat, q: nat :: r < |rows| && InRow(rows[r], q) ==> q < |rows|
  }

  /** A clique the extension step can take: at least one vertex, each with a row. */
  predicate Seed(rows: seq<seq<Word>>, clique: seq<Word>) {
    |Positions(clique)| > 0 && InRange(Positions(clique), |rows|)
  }

  /** The largest vertex of a clique, `vertii.last()`. */
  function MaxVertex(clique: seq<Word>): (r: nat)
    requires |Positions(clique)| > 0
    ensures InRow(clique, r)
    ensures forall q: nat :: InRow(clique, q) ==> q <= r
  {
    var ps := Positions(clique);
    PositionsFacts(clique);
    LastIsGreatest(ps);
    ps[|ps| - 1]
  }

  /** The elements of `s` above `x`, in order. */
  function Above(s: seq<nat>, x: nat): (r: seq<nat>)
    ensures forall v :: v in r <==> v in s && v > x
  {
    if |s| == 0 then []
    else
      var last := |s| - 1;
      assert forall v :: v in s <==> v in s[..last] || v == s[last];
      var front := Above(s[..last], x);
      if s[last] > x then front + [s[last]] else front
  }

  /** Dropping the elements up to `x` from an ascending list leaves it ascending. */
  lemma {:induction false} AboveSorted(s: seq<nat>, x: nat)
    requires StrictlyIncreasing(s)
    ensures StrictlyIncreasing(Above(s, x))
  {
    if |s| > 0 {
      var last := |s| - 1;
      assert StrictlyIncreasing(s[..last]);
      AboveSorted(s[..last], x);
      if s[last] > x {
        BelowLast(s, last);
        AppendIncreasing(Above(s[..last], x), s[last]);
      }
    }
  }

  /** Every element before the last of an ascending list is below the last. */
  lemma BelowLast(s: seq<nat>, last: nat)
    requires StrictlyIncreasing(s) && last + 1 == |s|
    ensures forall u :: u in s[..last] ==> u < s[last]
  {
    forall u | u in s[..last]
      ensures u < s[last]
    {
      var k :| 0 <= k < last && s[..last][k] == u;
      assert s[k] == u;
    }
  }

  /** Skipping the first `i` elements of `s` keeps exactly those above `x`. */
  lemma {:induction false} AboveSuffix(s: seq<nat>, x: nat, i: nat)
    requires i <= |s|
    requires forall j :: 0 <= j < i ==> s[j] <= x
    requires forall j :: i <= j < |s| ==> s[j] > x
    ensures Above(s, x) == s[i..]
  {
    if |s| > 0 {
      var last := |s| - 1;
      if i <= last {
        AboveSuffix(s[..last], x, i);
        assert s[..last][i..] + [s[last]] == s[i..];
      } else {
        AboveSuffix(s[..last], x, last);
      }
    }
  }

  /** The candidates of `cs` whose rows hold every vertex of `clique`, in order. */
  function Adjacent(rows: seq<seq<Word>>, clique: seq<Word>, cs: seq<nat>): (r: seq<nat>)
    requires InRange(cs, |rows|)
    ensures forall v {:trigger v in r} :: v in r <==> v in cs && v < |rows| && ContainsAll(rows[v], clique)
  {
    if |cs| == 0 then []
    else
      var last := |cs| - 1;
      var v := cs[last];
      assert forall u :: u in cs <==> u in cs[..last] || u == v;
      var front := Adjacent(rows, clique, cs[..last]);
      if ContainsAll(rows[v], clique) then front + [v] else front
  }

  /** Keeping the candidates whose rows hold the clique leaves an ascending list ascending. */
  lemma {:induction false} AdjacentSorted(rows: seq<seq<Word>>, clique: seq<Word>, cs: seq<nat>)
    requires InRange(cs, |rows|) && StrictlyIncreasing(cs)
    ensures StrictlyIncreasing(Adjacent(rows, clique, cs))
  {
    if |cs| > 0 {
      var last := |cs| - 1;
      assert StrictlyIncreasing(cs[..last]) && InRange(cs[..last], |rows|);
      AdjacentSorted(rows, clique, cs[..last]);
      if ContainsAll(rows[cs[last]], clique) {
        BelowLast(cs, last);
        AppendIncreasing(Adjacent(rows, clique, cs[..last]), cs[last]);
      }
    }
  }

  /** `clique` with each vertex of `vs` added in turn, one new clique per vertex. */
  function Extend(clique: seq<Word>, vs: seq<nat>): (r: seq<seq<Word>>)
    requires Fits(vs, |clique|)
    ensures |r| == |vs|
    ensures forall j :: 0 <= j < |vs| ==> r[j] == SetBit(clique, vs[j])
  {
    if |vs| == 0 then []
    else Extend(clique, vs[..|vs| - 1]) + [SetBit(clique, vs[|vs| - 1])]
  }

  /** The vertices common to the rows of every vertex of `clique`. */
  function CommonNeighbours(rows: seq<seq<Word>>, clique: seq<Word>): seq<nat>
    requires Seed(rows, clique)
  {
    Positions(Meet(rows, Positions(clique)))
  }

  /** `v` is in the row of every vertex of `clique`. */
  ghost predicate NeighbourOfAll(rows: seq<seq<Word>>, clique: seq<Word>, v: nat) {
    forall m: nat :: InRow(clique, m) ==> m < |rows| && InRow(rows[m], v)
  }

  /** The common neighbours are the vertices in the row of every vertex of the clique, in
      ascending order. */
  lemma CommonNeighboursSpec(rows: seq<seq<Word>>, clique: seq<Word>)
    requires Seed(rows, clique) && Uniform(rows, |clique|)
    ensures StrictlyIncreasing(CommonNeighbours(rows, clique))
    ensures forall v: nat :: v in CommonNeighbours(rows, clique) <==> NeighbourOfAll(rows, clique, v)
  {
    var ps := Positions(clique);
    var meet := Meet(rows, ps);
    PositionsSorted(meet);
    MeetSpec(rows, ps, |clique|);
    PositionsMembers(meet);
    PositionsMembers(clique);
    forall v: nat
      ensures v in Positions(meet) <==> NeighbourOfAll(rows, clique, v)
    {
      NeighbourOfAllIff(rows, clique, ps, meet, v);
    }
  }

  lemma {:induction false} NeighbourOfAllIff(rows: seq<seq<Word>>, clique: seq<Word>, ps: seq<nat>,
                                             meet: seq<Word>, v: nat)
    requires InRange(ps, |rows|)
    requires forall m: nat :: m in ps <==> InRow(clique, m)
    requires InRow(meet, v) <==> forall k :: 0 <= k < |ps| ==> InRow(rows[ps[k]], v)
    ensures InRow(meet, v) <==> NeighbourOfAll(rows, clique, v)
  {
    if InRow(meet, v) {
      forall m: nat | InRow(clique, m)
        ensures m < |rows| && InRow(rows[m], v)
      {
        var k :| 0 <= k < |ps| && ps[k] == m;
      }
    }
    if NeighbourOfAll(rows, clique, v) {
      forall k | 0 <= k < |ps|
        ensures InRow(rows[ps[k]], v)
      {
        assert ps[k] in ps;
      }
    }
  }

  /** Over closed rows as wide as the clique, each common neighbour has a row and fits the
      clique's words. */
  lemma CommonNeighboursFit(rows: seq<seq<Word>>, clique: seq<Word>)
    requires Seed(rows, clique) && Closed(rows) && Uniform(rows, |clique|)
    ensures InRange(CommonNeighbours(rows, clique), |rows|)
    ensures Fits(CommonNeighbours(rows, clique), |clique|)
  {
    var ps := Positions(clique);
    var meet := Meet(rows, ps);
    MeetSpec(rows, ps, |clique|);
    PositionsMembers(meet);
    var common := Positions(meet);
    forall k | 0 <= k < |common|
      ensures common[k] < |rows| && common[k] / 64 < |clique|
    {
      assert common[k] in common;
      assert InRow(meet, common[k]);
      assert InRow(rows[ps[0]], common[k]);
    }
  }

  /** The vertices `next_cliques` tries to add to `clique`: common neighbours above its
      largest vertex whose rows hold the whole clique. */
  function Candidates(rows: seq<seq<Word>>, clique: seq<Word>): (r: seq<nat>)
    requires Seed(rows, clique) && Closed(rows) && Uniform(rows, |clique|)
    ensures InRange(r, |rows|) && Fits(r, |clique|)
  {
    CommonNeighboursSpec(rows, clique);
    CommonNeighboursFit(rows, clique);
    var common := CommonNeighbours(rows, clique);
    var above := Above(common, MaxVertex(clique));
    Within(above, common, |rows|, |clique|);
    var r := Adjacent(rows, clique, above);
    Within(r, above, |rows|, |clique|);
    r
  }

  /** The elements of a list drawn from `t` keep the bounds `t`'s elements keep. */
  lemma Within(s: seq<nat>, t: seq<nat>, n: nat, width: nat)
    requires forall v :: v in s ==> v in t
    requires InRange(t, n) && Fits(t, width)
    ensures InRange(s, n) && Fits(s, width)
  {
    forall k | 0 <= k < |s|
      ensures s[k] < n && s[k] / 64 < width
    {
      assert s[k] in t;
    }
  }

  /** The cliques one vertex larger that grow out of `clique`, in candidate order. */
  function Extensions(rows: seq<seq<Word>>, clique: seq<Word>): seq<seq<Word>>
    requires Seed(rows, clique) && Closed(rows) && Uniform(rows, |clique|)
  {
    Extend(clique, Candidates(rows, clique))
  }

  /** A vertex is a candidate for `clique` exactly when it has a row, lies above the clique's
      largest vertex, is in the row of every clique vertex, and its own row holds every
      clique vertex. */
  lemma CandidatesSpec(rows: seq<seq<Word>>, clique: seq<Word>)
    requires Seed(rows, clique) && Closed(rows) && Uniform(rows, |clique|)
    ensures forall v: nat :: v in Candidates(rows, clique) <==>
              v < |rows| && MaxVertex(clique) < v && NeighbourOfAll(rows, clique, v)
              && forall q: nat :: InRow(clique, q) ==> InRow(rows[v], q)
  {
    CommonNeighboursSpec(rows, clique);
    CommonNeighboursFit(rows, clique);
    var common := CommonNeighbours(rows, clique);
    var maxv := MaxVertex(clique);
    var above := Above(common, maxv);
    Within(above, common, |rows|, |clique|);
    var cands := Candidates(rows, clique);
    assert cands == Adjacent(rows, clique, above);
    forall u | u in common
      ensures u < |rows|
    {
      var k :| 0 <= k < |common| && common[k] == u;
    }
    forall v: nat
      ensures v in cands <==>
              v < |rows| && maxv < v && NeighbourOfAll(rows, clique, v)
              && forall q: nat :: InRow(clique, q) ==> InRow(rows[v], q)
    {
      CandidateIff(rows, clique, above, v);
      CandidateVertex(rows, clique, common, above, cands, maxv, v);
    }
  }

  /** The candidates come in ascending order, as the common neighbours do. */
  lemma CandidatesSorted(rows: seq<seq<Word>>, clique: seq<Word>)
    requires Seed(rows, clique) && Closed(rows) && Uniform(rows, |clique|)
    ensures StrictlyIncreasing(Candidates(rows, clique))
  {
    CommonNeighboursSpec(rows, clique);
    CommonNeighboursFit(rows, clique);
    var common := CommonNeighbours(rows, clique);
    var above := Above(common, MaxVertex(clique));
    Within(above, common, |rows|, |clique|);
    AboveSorted(common, MaxVertex(clique));
    AdjacentSorted(rows, clique, above);
  }

  lemma {:induction false} CandidateIff(rows: seq<seq<Word>>, clique: seq<Word>, above: seq<nat>, v: nat)
    requires Uniform(rows, |clique|) && InRange(above, |rows|)
    ensures v in Adjacent(rows, clique, above) <==>
              v in above && v < |rows| && forall q: nat :: InRow(clique, q) ==> InRow(rows[v], q)
  {
  }

  lemma {:induction false} CandidateVertex(rows: seq<seq<Word>>, clique: seq<Word>, common: seq<nat>,
                                           above: seq<nat>, cands: seq<nat>, maxv: nat, v: nat)
    requires forall u :: u in above <==> u in common && u > maxv
    requires forall u: nat :: u in common <==> NeighbourOfAll(rows, clique, u)
    requires forall u :: u in common ==> u < |rows|
    requires v in cands <==> v in above && v < |rows| && forall q: nat :: InRow(clique, q) ==> InRow(rows[v], q)
    ensures v in cands <==>
              v < |rows| && maxv < v && NeighbourOfAll(rows, clique, v)
              && forall q: nat :: InRow(clique, q) ==> InRow(rows[v], q)
  {
  }

  /** Each extension is the clique with one candidate added: one word-row as wide, its
      vertices those of the clique followed by the candidate, so one vertex more. */
  lemma ExtensionsSpec(rows: seq<seq<Word>>, clique: seq<Word>)
    requires Seed(rows, clique) && Closed(rows) && Uniform(rows, |clique|)
    ensures |Extensions(rows, clique)| == |Candidates(rows, clique)|
    ensures forall j :: 0 <= j < |Extensions(rows, clique)| ==>
              |Extensions(rows, clique)[j]| == |clique|
              && Positions(Extensions(rows, clique)[j]) == Positions(clique) + [Candidates(rows, clique)[j]]
              && NElements(Extensions(rows, clique)[j]) == NElements(clique) + 1
  {
    var cands := Candidates(rows, clique);
    var exts := Extensions(rows, clique);
    CandidatesSpec(rows, clique);
    forall j | 0 <= j < |exts|
      ensures |exts[j]| == |clique|
              && Positions(exts[j]) == Positions(clique) + [cands[j]]
              && NElements(exts[j]) == NElements(clique) + 1
    {
      assert cands[j] in cands;
      ExtensionAbove(clique, cands[j]);
    }
  }

  /** Adding a vertex above all of a clique's vertices appends it to the vertex list. */
  lemma ExtensionAbove(clique: seq<Word>, v: nat)
    requires |Positions(clique)| > 0 && MaxVertex(clique) < v && v / 64 < |clique|
    ensures Positions(SetBit(clique, v)) == Positions(clique) + [v]
    ensures NElements(SetBit(clique, v)) == NElements(clique) + 1
  {
    SetBitAbove(clique, v);
    PositionsLength(clique);
    PositionsLength(SetBit(clique, v));
  }

  /** One more candidate in the list adds one extension when its row holds the clique. */
  lemma {:induction false} GrowStep(rows: seq<seq<Word>>, clique: seq<Word>, cs: seq<nat>, k: nat)
    requires k < |cs| && InRange(cs, |rows|) && Fits(cs, |clique|)
    ensures InRange(cs[..k], |rows|) && Fits(cs[..k], |clique|)
    ensures InRange(cs[..k + 1], |rows|) && Fits(cs[..k + 1], |clique|)
    ensures Fits(Adjacent(rows, clique, cs[..k]), |clique|)
    ensures Fits(Adjacent(rows, clique, cs[..k + 1]), |clique|)
    ensures Extend(clique, Adjacent(rows, clique, cs[..k + 1]))
         == Extend(clique, Adjacent(rows, clique, cs[..k]))
            + (if ContainsAll(rows[cs[k]], clique) then [SetBit(clique, cs[k])] else [])
  {
    var front := cs[..k];
    var v := cs[k];
    assert cs[..k + 1] == front + [v];
    assert (front + [v])[..k] == front;
    Within(front, cs, |rows|, |clique|);
    Within(front + [v], cs, |rows|, |clique|);
    Within(Adjacent(rows, clique, front + [v]), cs, |rows|, |clique|);
    Within(Adjacent(rows, clique, front), cs, |rows|, |clique|);
    if ContainsAll(rows[v], clique) {
      var adj := Adjacent(rows, clique, front);
      assert (adj + [v])[..|adj|] == adj;
    }
  }

  /** Lines 59-62 of the source: the index `skip` starts from, found by `binary_search`
      for `vertex` in the ascending common neighbours; what follows it is exactly the
      neighbours above `vertex`. */
  method SkipPoint(common: seq<nat>, vertex: nat) returns (start: nat)
    requires StrictlyIncreasing(common)
    ensures start <= |common| && common[start..] == Above(common, vertex)
  {
    var found, index := BinarySearch(common, vertex);
    if found {
      start := index + 1;
    } else {
      start := index;
    }
    forall j | 0 <= j < start
      ensures common[j] <= vertex
    {
      assert found ==> common[j] <= common[index];
    }
    forall j | start <= j < |common|
      ensures common[j] > vertex
    {
      assert found ==> common[j] > common[index];
    }
    AboveSuffix(common, vertex, start);
  }

  /** Lines 64-73 of the source: each listed neighbour whose row holds the whole clique
      gives a copy of the clique with that neighbour inserted. */
  method GrowClique(matrix: seq<Word>, clique: seq<Word>, chunkSize: nat, neighbours: seq<nat>)
    returns (chunk: seq<seq<Word>>)
    requires chunkSize > 0 && |clique| == chunkSize
    requires InRange(neighbours, |Rows(matrix, chunkSize)|) && Fits(neighbours, chunkSize)
    ensures Fits(Adjacent(Rows(matrix, chunkSize), clique, neighbours), chunkSize)
    ensures chunk == Extend(clique, Adjacent(Rows(matrix, chunkSize), clique, neighbours))
  {
    ghost var rows := Rows(matrix, chunkSize);
    chunk := [];
    var k := 0;
    assert neighbours[..0] == [];
    while k < |neighbours|
      invariant k <= |neighbours|
      invariant InRange(neighbours[..k], |rows|) && Fits(neighbours[..k], chunkSize)
      invariant Fits(Adjacent(rows, clique, neighbours[..k]), chunkSize)
      invariant chunk == Extend(clique, Adjacent(rows, clique, neighbours[..k]))
    {
      var neighbour := neighbours[k];
      GrowStep(rows, clique, neighbours, k);
      if ContainsAll(RowOf(matrix, chunkSize, neighbour), clique) {
        var a := ToVec(clique);
        var newClique := Insert(a, neighbour);
        chunk := chunk + [newClique];
      }
      k := k + 1;
    }
    assert neighbours[..k] == neighbours;
  }

  /** The body of the `flat_map` in `next_cliques` (lines 51-77 of the source): intersect
      the rows of the clique's vertices, skip the common neighbours up to its largest vertex,
      and grow the clique by each remaining one whose row holds the whole clique. */
  method ExtendClique(matrix: seq<Word>, clique: seq<Word>, chunkSize: nat) returns (chunk: seq<seq<Word>>)
    requires chunkSize > 0 && |clique| == chunkSize
    requires Seed(Rows(matrix, chunkSize), clique) && Closed(Rows(matrix, chunkSize))
    ensures Uniform(Rows(matrix, chunkSize), chunkSize)
    ensures chunk == Extensions(Rows(matrix, chunkSize), clique)
  {
    ghost var rows := Rows(matrix, chunkSize);
    RowsSplit(matrix, chunkSize);
    var vertii := Indexes(clique);
    var meet := BatchIntersect(matrix, vertii, chunkSize);
    var common := Indexes(meet);
    var vertex := vertii[|vertii| - 1];
    assert common == CommonNeighbours(rows, clique);
    assert vertex == MaxVertex(clique);
    assert StrictlyIncreasing(common) by {
      CommonNeighboursSpec(rows, clique);
    }
    var start := SkipPoint(common, vertex);
    ghost var above := Above(common, vertex);
    assert InRange(above, |rows|) && Fits(above, chunkSize) by {
      CommonNeighboursFit(rows, clique);
      Within(above, common, |rows|, chunkSize);
    }
    chunk := GrowClique(matrix, clique, chunkSize, common[start..]);
    assert Candidates(rows, clique) == Adjacent(rows, clique, above);
  }

  // ----------------------------------------------------------------------------
  // Pruning: lines 42-46 of `next_cliques`

  /** Rows `0 .. n - 1` with the listed vertices cleared, the rest as they are. */
  function PrunedUpTo(rows: seq<seq<Word>>, indices: seq<nat>, size: nat, n: nat): (r: seq<seq<Word>>)
    requires n <= |rows| && Uniform(rows, size) && Fits(indices, size)
    ensures |r| == |rows|
  {
    if n == 0 then rows
    else PrunedUpTo(rows, indices, size, n - 1)[n - 1 := Cleared(rows[n - 1], indices)]
  }

  lemma {:induction false} PrunedUpToAt(rows: seq<seq<Word>>, indices: seq<nat>, size: nat, n: nat)
    requires n <= |rows| && Uniform(rows, size) && Fits(indices, size)
    ensures Uniform(PrunedUpTo(rows, indices, size, n), size)
    ensures forall r :: 0 <= r < |rows| ==>
              PrunedUpTo(rows, indices, size, n)[r] == if r < n then Cleared(rows[r], indices) else rows[r]
  {
    if n > 0 {
      PrunedUpToAt(rows, indices, size, n - 1);
    }
  }

  /** The buffer with the listed vertices cleared in every full row. */
  function Pruned(m: seq<Word>, size: nat, indices: seq<nat>): seq<Word>
    requires size > 0 && Fits(indices, size)
  {
    var rows := Rows(m, size);
    RowsSplit(m, size);
    Flatten(PrunedUpTo(rows, indices, size, |rows|)) + m[|Flatten(rows)|..]
  }

  /** Midway through pruning, row `k` is still as it was. */
  lemma {:induction false} PruneSegment(rows: seq<seq<Word>>, tail: seq<Word>, size: nat, indices: seq<nat>,
                                        k: nat, buf: seq<Word>, start: int)
    requires Uniform(rows, size) && Fits(indices, size) && k < |rows|
    requires buf == Flatten(PrunedUpTo(rows, indices, size, k)) + tail && start == k * size
    ensures start + size <= |buf| && buf[start..start + size] == rows[k]
  {
    PrunedUpToAt(rows, indices, size, k);
    RowSegment(PrunedUpTo(rows, indices, size, k), tail, size, k);
  }

  /** Clearing the listed vertices in row `k`'s segment extends the pruning by a row. */
  lemma {:induction false} PruneStep(rows: seq<seq<Word>>, tail: seq<Word>, size: nat, indices: seq<nat>,
                                     k: nat, before: seq<Word>, after: seq<Word>, start: int)
    requires Uniform(rows, size) && Fits(indices, size) && k < |rows|
    requires before == Flatten(PrunedUpTo(rows, indices, size, k)) + tail && start == k * size
    requires 0 <= start && start + size <= |before| && before[start..start + size] == rows[k]
    requires |after| == |before|
    requires after[..start] == before[..start] && after[start + size..] == before[start + size..]
    requires after[start..start + size] == Cleared(rows[k], indices)
    ensures after == Flatten(PrunedUpTo(rows, indices, size, k + 1)) + tail
  {
    var cur := PrunedUpTo(rows, indices, size, k);
    PrunedUpToAt(rows, indices, size, k);
    assert after == before[..start] + Cleared(rows[k], indices) + before[start + size..] by {
      assert after == after[..start] + after[start..start + size] + after[start + size..];
    }
    RowUpdate(cur, tail, size, k, Cleared(rows[k], indices));
  }

  /** Lines 44-46 of the source: `clear_bits` on every full row of the matrix. The rows are
      disjoint, so the parallel loop is a loop over the rows in order. */
  method PruneRows(matrix: array<Word>, chunkSize: nat, indices: seq<nat>)
    requires chunkSize > 0 && Fits(indices, chunkSize)
    modifies matrix
    ensures matrix[..] == Pruned(old(matrix[..]), chunkSize, indices)
  {
    ghost var rows := Rows(matrix[..], chunkSize);
    RowsSplit(matrix[..], chunkSize);
    RowCount(matrix[..], chunkSize);
    ghost var tail := matrix[..][|Flatten(rows)|..];
    var nRows := matrix.Length / chunkSize;
    var k := 0;
    while k < nRows
      invariant k <= nRows
      invariant matrix[..] == Flatten(PrunedUpTo(rows, indices, chunkSize, k)) + tail
    {
      PruneRow(matrix, chunkSize, indices, k, rows, tail);
      k := k + 1;
    }
  }

  /** `clear_bits` on row `k` of the matrix, the rows before it already pruned. */
  method PruneRow(matrix: array<Word>, chunkSize: nat, indices: seq<nat>, k: nat,
                  ghost rows: seq<seq<Word>>, ghost tail: seq<Word>)
    requires Uniform(rows, chunkSize) && Fits(indices, chunkSize) && k < |rows|
    requires matrix[..] == Flatten(PrunedUpTo(rows, indices, chunkSize, k)) + tail
    modifies matrix
    ensures matrix[..] == Flatten(PrunedUpTo(rows, indices, chunkSize, k + 1)) + tail
  {
    var start := RowStart(k, chunkSize);
    PruneSegment(rows, tail, chunkSize, indices, k, matrix[..], start);
    ghost var before := matrix[..];
    ClearBits(matrix, start, start + chunkSize, indices);
    assert matrix[start..start + chunkSize] == Cleared(rows[k], indices) by {
      assert before[start..start + chunkSize] == rows[k];
    }
    PruneStep(rows, tail, chunkSize, indices, k, before, matrix[..], start);
  }

  /** Pruning keeps the row count and each row's width, and row `r` afterwards holds
      exactly the vertices it held before that are not listed; a remainder shorter than a
      row is left as it is. */
  lemma PrunedSpec(m: seq<Word>, size: nat, indices: seq<nat>)
    requires size > 0 && Fits(indices, size)
    ensures |Pruned(m, size, indices)| == |m|
    ensures |Rows(Pruned(m, size, indices), size)| == |Rows(m, size)|
    ensures Uniform(Rows(Pruned(m, size, indices), size), size)
    ensures forall r: nat, q: nat :: r < |Rows(m, size)| ==>
              (InRow(Rows(Pruned(m, size, indices), size)[r], q) <==> InRow(Rows(m, size)[r], q) && q !in indices)
  {
    var rows := Rows(m, size);
    RowsSplit(m, size);
    var tail := m[|Flatten(rows)|..];
    var cur := PrunedUpTo(rows, indices, size, |rows|);
    PrunedUpToAt(rows, indices, size, |rows|);
    RowsOfFlatten(cur, tail, size);
    FlattenLength(cur, size);
    FlattenLength(rows, size);
    forall r: nat | r < |rows|
      ensures forall q: nat :: InRow(cur[r], q) <==> InRow(rows[r], q) && q !in indices
    {
      ClearedSpec(rows[r], indices);
    }
  }

  // ----------------------------------------------------------------------------
  // `next_cliques`

  /** Every clique of the bank is a row as wide as the matrix rows, with at least one
      vertex and each of its vertices a row of the matrix. */
  predicate SeedBank(rows: seq<seq<Word>>, bank: seq<seq<Word>>, size: nat) {
    Uniform(rows, size) && Uniform(bank, size)
    && forall i :: 0 <= i < |bank| ==> Seed(rows, bank[i])
  }

  /** The extensions of every clique of the bank, block by block in bank order. */
  function NewCliques(rows: seq<seq<Word>>, bank: seq<seq<Word>>, size: nat): seq<seq<Word>>
    requires Closed(rows) && SeedBank(rows, bank, size)
  {
    if |bank| == 0 then []
    else
      var last := |bank| - 1;
      assert SeedBank(rows, bank[..last], size);
      NewCliques(rows, bank[..last], size) + Extensions(rows, bank[last])
  }

  /** The clique size `s` of `next_cliques`: the vertex count of the first clique. */
  function CliqueSize(cliques: seq<Word>, chunkSize: nat): nat
    requires chunkSize <= |cliques|
  {
    NElements(cliques[..chunkSize])
  }

  /** The bank after one round: every new clique is a row as wide as the old ones, has one
      vertex more than the cliques of a bank of `s`-cliques, and is again a seed. */
  lemma {:induction false} NewCliquesSpec(rows: seq<seq<Word>>, bank: seq<seq<Word>>, size: nat, s: nat)
    requires Closed(rows) && Bank(rows, bank, size, s)
    ensures Bank(rows, NewCliques(rows, bank, size), size, s + 1)
    decreases |bank|
  {
    if |bank| > 0 {
      var last := |bank| - 1;
      BankPrefix(rows, bank, size, s, last);
      BankAt(rows, bank, size, s, last);
      var front, back := NewCliques(rows, bank[..last], size), Extensions(rows, bank[last]);
      assert Bank(rows, front + back, size, s + 1) by {
        NewCliquesSpec(rows, bank[..last], size, s);
        ExtensionsBank(rows, bank[last], size, s);
        BankConcat(rows, front, back, size, s + 1);
      }
      NewCliquesLast(rows, bank, size);
    }
  }

  /** The new cliques of a bank are those of all but its last clique, then the extensions
      of the last. */
  lemma NewCliquesLast(rows: seq<seq<Word>>, bank: seq<seq<Word>>, size: nat)
    requires Closed(rows) && SeedBank(rows, bank, size) && |bank| > 0
    requires SeedBank(rows, bank[..|bank| - 1], size)
    ensures NewCliques(rows, bank, size)
         == NewCliques(rows, bank[..|bank| - 1], size) + Extensions(rows, bank[|bank| - 1])
  {
  }

  /** A clique grown from one of the bank: its vertex list is that of a clique of the
      bank followed by one vertex more. */
  ghost predicate GrownFrom(bank: seq<seq<Word>>, x: seq<Word>) {
    |Positions(x)| > 0
    && exists i :: 0 <= i < |bank| && Positions(x)[..|Positions(x)| - 1] == Positions(bank[i])
  }

  /** The extensions of one clique are distinct, each the clique plus one vertex: every
      extension appends a different candidate of an ascending list. */
  lemma {:induction false} ExtensionsDistinct(rows: seq<seq<Word>>, clique: seq<Word>)
    requires Seed(rows, clique) && Closed(rows) && Uniform(rows, |clique|)
    ensures Distinct(Extensions(rows, clique))
    ensures forall j :: 0 <= j < |Extensions(rows, clique)| ==>
              |Positions(Extensions(rows, clique)[j])| > 0
              && Positions(Extensions(rows, clique)[j])[..|Positions(Extensions(rows, clique)[j])| - 1] == Positions(clique)
  {
    var exts, cands := Extensions(rows, clique), Candidates(rows, clique);
    var n := |Positions(clique)|;
    ExtensionsSpec(rows, clique);
    CandidatesSorted(rows, clique);
    forall i, j | 0 <= i < j < |exts|
      ensures exts[i] != exts[j]
    {
      assert Positions(exts[i])[n] == cands[i] < cands[j] == Positions(exts[j])[n];
    }
    forall j | 0 <= j < |exts|
      ensures |Positions(exts[j])| > 0 && Positions(exts[j])[..|Positions(exts[j])| - 1] == Positions(clique)
    {
      assert Positions(exts[j]) == Positions(clique) + [cands[j]];
    }
  }

  /** Two lists without repeats and with no entry in common join into one without repeats. */
  lemma {:induction false} DistinctConcat(front: seq<seq<Word>>, back: seq<seq<Word>>)
    requires Distinct(front) && Distinct(back)
    requires forall i, j :: 0 <= i < |front| && 0 <= j < |back| ==> front[i] != back[j]
    ensures Distinct(front + back)
  {
    var all := front + back;
    forall i, j | 0 <= i < j < |all|
      ensures all[i] != all[j]
    {
      if j < |front| {
        assert all[i] == front[i] && all[j] == front[j];
      } else if i < |front| {
        assert all[i] == front[i] && all[j] == back[j - |front|];
      } else {
        assert all[i] == back[i - |front|] && all[j] == back[j - |front|];
      }
    }
  }

  /** A bank with no clique repeated grows new cliques with none repeated, each grown from
      a clique of the bank. */
  lemma {:induction false} NewCliquesDistinct(rows: seq<seq<Word>>, bank: seq<seq<Word>>, size: nat)
    requires Closed(rows) && SeedBank(rows, bank, size) && Distinct(bank)
    ensures Distinct(NewCliques(rows, bank, size))
    ensures forall j :: 0 <= j < |NewCliques(rows, bank, size)| ==> GrownFrom(bank, NewCliques(rows, bank, size)[j])
    decreases |bank|
  {
    if |bank| > 0 {
      var last := |bank| - 1;
      DistinctPrefix(bank, last);
      assert SeedBank(rows, bank[..last], size);
      NewCliquesDistinct(rows, bank[..last], size);
      NewCliquesLast(rows, bank, size);
      var front, back := NewCliques(rows, bank[..last], size), Extensions(rows, bank[last]);
      ExtensionsDistinct(rows, bank[last]);
      BlocksApart(bank, size, front, back);
      DistinctConcat(front, back);
      PrefixGrown(bank, last, front);
      LastGrown(bank, back);
      GrownConcat(bank, front, back);
    }
  }

  /** A prefix of a list without repeats has none. */
  lemma {:induction false} DistinctPrefix(bank: seq<seq<Word>>, n: nat)
    requires Distinct(bank) && n <= |bank|
    ensures Distinct(bank[..n])
  {
    forall i, j | 0 <= i < j < n
      ensures bank[..n][i] != bank[..n][j]
    {
      assert bank[..n][i] == bank[i] && bank[..n][j] == bank[j];
    }
  }

  /** No clique grown from an earlier clique of a bank without repeats is an extension of
      its last clique: the two would have the same vertex list less the last entry, so the
      two cliques of the bank would have the same vertex list and width, hence be equal. */
  lemma {:induction false} BlocksApart(bank: seq<seq<Word>>, size: nat, front: seq<seq<Word>>, back: seq<seq<Word>>)
    requires Uniform(bank, size) && Distinct(bank) && |bank| > 0
    requires forall j :: 0 <= j < |front| ==> GrownFrom(bank[..|bank| - 1], front[j])
    requires forall j :: 0 <= j < |back| ==>
               |Positions(back[j])| > 0 && Positions(back[j])[..|Positions(back[j])| - 1] == Positions(bank[|bank| - 1])
    ensures forall i, j :: 0 <= i < |front| && 0 <= j < |back| ==> front[i] != back[j]
  {
    var last := |bank| - 1;
    forall i, j | 0 <= i < |front| && 0 <= j < |back|
      ensures front[i] != back[j]
    {
      var k := GrownParent(bank[..last], front[i]);
      assert bank[..last][k] == bank[k];
      GrownApart(bank[k], bank[last], Positions(front[i]), Positions(back[j]));
    }
  }

  /** The index in the bank of the clique a grown clique comes from. */
  ghost function GrownParent(bank: seq<seq<Word>>, x: seq<Word>): (k: nat)
    requires GrownFrom(bank, x)
    ensures k < |bank| && Positions(x)[..|Positions(x)| - 1] == Positions(bank[k])
  {
    var i :| 0 <= i < |bank| && Positions(x)[..|Positions(x)| - 1] == Positions(bank[i]);
    i
  }

  /** Vertex lists grown from two different cliques of the same width differ. */
  lemma {:induction false} GrownApart(a: seq<Word>, b: seq<Word>, u: seq<nat>, v: seq<nat>)
    requires |a| == |b| && a != b
    requires |u| > 0 && u[..|u| - 1] == Positions(a)
    requires |v| > 0 && v[..|v| - 1] == Positions(b)
    ensures u != v
  {
    PositionsApart(a, b);
    ListsApart(Positions(a), Positions(b), u, v);
  }

  /** Two rows of the same width that differ have different vertex lists. */
  lemma {:induction false} PositionsApart(a: seq<Word>, b: seq<Word>)
    requires |a| == |b| && a != b
    ensures Positions(a) != Positions(b)
  {
    if Positions(a) == Positions(b) {
      PositionsDetermine(a, b);
      assert false;
    }
  }

  /** Lists extending two different lists by one entry differ. */
  lemma {:induction false} ListsApart(s: seq<nat>, t: seq<nat>, u: seq<nat>, v: seq<nat>)
    requires s != t && |u| > 0 && u[..|u| - 1] == s && |v| > 0 && v[..|v| - 1] == t
    ensures u != v
  {
  }

  /** The new cliques grown from a bank's prefix, followed by the extensions of its last
      clique, are all grown from the bank. */
  lemma {:induction false} GrownConcat(bank: seq<seq<Word>>, front: seq<seq<Word>>, back: seq<seq<Word>>)
    requires forall j :: 0 <= j < |front| ==> GrownFrom(bank, front[j])
    requires forall j :: 0 <= j < |back| ==> GrownFrom(bank, back[j])
    ensures forall j :: 0 <= j < |front + back| ==> GrownFrom(bank, (front + back)[j])
  {
    forall j | 0 <= j < |front + back|
      ensures GrownFrom(bank, (front + back)[j])
    {
      if j < |front| {
        assert (front + back)[j] == front[j];
      } else {
        assert (front + back)[j] == back[j - |front|];
      }
    }
  }

  /** A clique grown from a prefix of a bank is grown from the bank. */
  lemma {:induction false} PrefixGrown(bank: seq<seq<Word>>, n: nat, front: seq<seq<Word>>)
    requires n <= |bank|
    requires forall j :: 0 <= j < |front| ==> GrownFrom(bank[..n], front[j])
    ensures forall j :: 0 <= j < |front| ==> GrownFrom(bank, front[j])
  {
    forall j | 0 <= j < |front|
      ensures GrownFrom(bank, front[j])
    {
      var k := GrownParent(bank[..n], front[j]);
      var p := Positions(front[j]);
      assert bank[..n][k] == bank[k];
      assert 0 <= k < |bank| && p[..|p| - 1] == Positions(bank[k]);
    }
  }

  /** The extensions of the last clique of a bank are grown from the bank. */
  lemma {:induction false} LastGrown(bank: seq<seq<Word>>, back: seq<seq<Word>>)
    requires |bank| > 0
    requires forall j :: 0 <= j < |back| ==>
               |Positions(back[j])| > 0 && Positions(back[j])[..|Positions(back[j])| - 1] == Positions(bank[|bank| - 1])
    ensures forall j :: 0 <= j < |back| ==> GrownFrom(bank, back[j])
  {
    var last := |bank| - 1;
    forall j | 0 <= j < |back|
      ensures GrownFrom(bank, back[j])
    {
      var p := Positions(back[j]);
      assert 0 <= last < |bank| && p[..|p| - 1] == Positions(bank[last]);
    }
  }

  /** A bank of seeds of `s` vertices each. */
  ghost predicate Bank(rows: seq<seq<Word>>, bank: seq<seq<Word>>, size: nat, s: nat) {
    SeedBank(rows, bank, size) && forall j :: 0 <= j < |bank| ==> NElements(bank[j]) == s
  }

  /** A prefix of a bank is a bank. */
  lemma BankPrefix(rows: seq<seq<Word>>, bank: seq<seq<Word>>, size: nat, s: nat, n: nat)
    requires Bank(rows, bank, size, s) && n <= |bank|
    ensures Bank(rows, bank[..n], size, s)
  {
    forall i | 0 <= i < n
      ensures |bank[..n][i]| == size && Seed(rows, bank[..n][i]) && NElements(bank[..n][i]) == s
    {
      assert bank[..n][i] == bank[i];
    }
  }

  /** Each clique of a bank is a seed of `s` vertices as wide as the rows. */
  lemma BankAt(rows: seq<seq<Word>>, bank: seq<seq<Word>>, size: nat, s: nat, i: nat)
    requires Bank(rows, bank, size, s) && i < |bank|
    ensures Uniform(rows, size) && |bank[i]| == size && Seed(rows, bank[i]) && NElements(bank[i]) == s
  {
  }

  /** The extensions of a seed of `s` vertices are a bank of seeds of `s + 1` vertices. */
  lemma ExtensionsBank(rows: seq<seq<Word>>, clique: seq<Word>, size: nat, s: nat)
    requires Seed(rows, clique) && Closed(rows) && Uniform(rows, size) && |clique| == size
    requires NElements(clique) == s
    ensures Bank(rows, Extensions(rows, clique), size, s + 1)
  {
    ExtensionsSeeds(rows, clique);
  }

  /** Two banks of seeds of one size concatenate to such a bank. */
  lemma BankConcat(rows: seq<seq<Word>>, front: seq<seq<Word>>, back: seq<seq<Word>>, size: nat, s: nat)
    requires Bank(rows, front, size, s) && Bank(rows, back, size, s)
    ensures Bank(rows, front + back, size, s)
  {
    var all := front + back;
    forall j | 0 <= j < |all|
      ensures |all[j]| == size && Seed(rows, all[j]) && NElements(all[j]) == s
    {
      if j < |front| {
        assert all[j] == front[j];
      } else {
        assert all[j] == back[j - |front|];
      }
    }
  }

  /** The extensions of a seed are seeds one vertex larger. */
  lemma ExtensionsSeeds(rows: seq<seq<Word>>, clique: seq<Word>)
    requires Seed(rows, clique) && Closed(rows) && Uniform(rows, |clique|)
    ensures forall j :: 0 <= j < |Extensions(rows, clique)| ==>
              |Extensions(rows, clique)[j]| == |clique| && Seed(rows, Extensions(rows, clique)[j])
              && NElements(Extensions(rows, clique)[j]) == NElements(clique) + 1
  {
    var exts := Extensions(rows, clique);
    var cands := Candidates(rows, clique);
    CandidatesSpec(rows, clique);
    forall j | 0 <= j < |exts|
      ensures |exts[j]| == |clique| && Seed(rows, exts[j]) && NElements(exts[j]) == NElements(clique) + 1
    {
      assert cands[j] in cands;
      SeedExtension(rows, clique, cands[j]);
    }
  }

  /** Adding a vertex that has a row, above the clique's largest, to a seed gives a seed
      with one vertex more. */
  lemma SeedExtension(rows: seq<seq<Word>>, clique: seq<Word>, v: nat)
    requires Seed(rows, clique) && v < |rows| && v / 64 < |clique| && MaxVertex(clique) < v
    ensures Seed(rows, SetBit(clique, v))
    ensures NElements(SetBit(clique, v)) == NElements(clique) + 1
  {
    ExtensionAbove(clique, v);
    InRangeAppend(Positions(clique), v, |rows|);
  }

  lemma InRangeAppend(ps: seq<nat>, v: nat, n: nat)
    requires InRange(ps, n) && v < n
    ensures InRange(ps + [v], n)
  {
    forall k | 0 <= k < |ps + [v]|
      ensures (ps + [v])[k] < n
    {
      if k < |ps| {
        assert (ps + [v])[k] == ps[k];
      }
    }
  }

  /** Pruning keeps the rows closed and every seed of the bank a seed. */
  lemma PruneKeepsSeeds(m: seq<Word>, size: nat, indices: seq<nat>, bank: seq<seq<Word>>)
    requires size > 0 && Fits(indices, size)
    requires Closed(Rows(m, size)) && SeedBank(Rows(m, size), bank, size)
    ensures Closed(Rows(Pruned(m, size, indices), size))
    ensures SeedBank(Rows(Pruned(m, size, indices), size), bank, size)
  {
    PrunedSpec(m, size, indices);
    var rows := Rows(m, size);
    var rows' := Rows(Pruned(m, size, indices), size);
    forall r: nat, q: nat | r < |rows'| && InRow(rows'[r], q)
      ensures q < |rows'|
    {
      assert InRow(rows'[r], q) <==> InRow(rows[r], q) && q !in indices;
    }
  }

  /** `next_cliques`: prune the vertices of degree below the clique size from every row,
      then replace each clique of the bank by its extensions, concatenated in bank order. */
  method NextCliques(matrix: array<Word>, degrees: seq<nat>, cliques: seq<Word>, chunkSize: nat)
    returns (r: Result<seq<Word>>)
    requires chunkSize > 0
    requires chunkSize <= |cliques| ==>
               Fits(IndicesSmallerThan(degrees, CliqueSize(cliques, chunkSize)), chunkSize)
               && Closed(Rows(matrix[..], chunkSize))
               && SeedBank(Rows(matrix[..], chunkSize), Rows(cliques, chunkSize), chunkSize)
    modifies matrix
    ensures |cliques| < chunkSize ==> r == Err(NoSeedCliques) && matrix[..] == old(matrix[..])
    ensures chunkSize <= |cliques| ==>
              matrix[..] == Pruned(old(matrix[..]), chunkSize, IndicesSmallerThan(degrees, CliqueSize(cliques, chunkSize)))
              && Closed(Rows(matrix[..], chunkSize))
              && SeedBank(Rows(matrix[..], chunkSize), Rows(cliques, chunkSize), chunkSize)
              && r == Ok(Flatten(NewCliques(Rows(matrix[..], chunkSize), Rows(cliques, chunkSize), chunkSize)))
  {
    if |cliques| < chunkSize {
      return Err(NoSeedCliques);
    }
    var cliqueSize := NElements(cliques[..chunkSize]);
    var indices := IndicesSmallerThan(degrees, cliqueSize);
    PruneKeepsSeeds(matrix[..], chunkSize, indices, Rows(cliques, chunkSize));
    PruneRows(matrix, chunkSize, indices);
    r := GrowBank(matrix[..], Rows(cliques, chunkSize), chunkSize);
  }

  /** Lines 48-81 of the source: the extensions of each clique of the bank, concatenated in
      bank order. */
  method GrowBank(pruned: seq<Word>, bank: seq<seq<Word>>, chunkSize: nat) returns (r: Result<seq<Word>>)
    requires chunkSize > 0 && Closed(Rows(pruned, chunkSize)) && SeedBank(Rows(pruned, chunkSize), bank, chunkSize)
    ensures r == Ok(Flatten(NewCliques(Rows(pruned, chunkSize), bank, chunkSize)))
  {
    ghost var rows := Rows(pruned, chunkSize);
    var grown: seq<seq<Word>> := [];
    var i := 0;
    while i < |bank|
      invariant i <= |bank| && SeedBank(rows, bank[..i], chunkSize)
      invariant grown == NewCliques(rows, bank[..i], chunkSize)
    {
      GrowBankStep(rows, bank, chunkSize, i);
      var chunk := ExtendClique(pruned, bank[i], chunkSize);
      grown := grown + chunk;
      i := i + 1;
    }
    assert bank[..i] == bank;
    return Ok(Flatten(grown));
  }

  lemma {:induction false} GrowBankStep(rows: seq<seq<Word>>, bank: seq<seq<Word>>, size: nat, i: nat)
    requires Closed(rows) && SeedBank(rows, bank, size) && i < |bank|
    ensures Seed(rows, bank[i]) && |bank[i]| == size
    ensures SeedBank(rows, bank[..i], size) && SeedBank(rows, bank[..i + 1], size)
    ensures NewCliques(rows, bank[..i + 1], size) == NewCliques(rows, bank[..i], size) + Extensions(rows, bank[i])
  {
    SeedBankPrefix(rows, bank, size, i);
    SeedBankPrefix(rows, bank, size, i + 1);
    assert bank[..i + 1][..i] == bank[..i];
  }

  /** A prefix of a seed bank is a seed bank. */
  lemma SeedBankPrefix(rows: seq<seq<Word>>, bank: seq<seq<Word>>, size: nat, j: nat)
    requires SeedBank(rows, bank, size) && j <= |bank|
    ensures SeedBank(rows, bank[..j], size)
  {
  }

  // ----------------------------------------------------------------------------
  // `make_boundary_map`

  /** The face lookup table: a clique row and its column index. */
  type Table = map<seq<Word>, nat>

  /** The table after inserting the rows with their positions in order; a row listed twice
      keeps its last position, as `HashMap::insert` overwrites. */
  function SeedTable(rows: seq<seq<Word>>): Table {
    if |rows| == 0 then map[]
    else SeedTable(rows[..|rows| - 1])[rows[|rows| - 1] := |rows| - 1]
  }

  /** Every index of the table is below `|t|`, and no two rows share one: the indices are
      exactly `0 .. |t| - 1`. */
  ghost predicate Dense(t: Table) {
    (forall key :: key in t ==> t[key] < |t|)
    && forall k1, k2 :: k1 in t && k2 in t && t[k1] == t[k2] ==> k1 == k2
  }

  /** `u` keeps every entry of `t`. */
  ghost predicate Extends(u: Table, t: Table) {
    forall key :: key in t ==> key in u && u[key] == t[key]
  }

  /** Lines 97-101 of the source: each face in turn gets its index in the table, or, when
      absent, the table size at that moment, which is then entered. */
  function AssignFaces(table: Table, faces: seq<seq<Word>>): (r: (Table, seq<nat>))
    ensures |r.1| == |faces|
  {
    if |faces| == 0 then (table, [])
    else
      var (t, indices) := AssignFaces(table, faces[..|faces| - 1]);
      var face := faces[|faces| - 1];
      if face in t then (t, indices + [t[face]])
      else (t[face := |t|], indices + [|t|])
  }

  /** Lines 95-103 of the source: the face index lists of the simplices in order, the table
      carried from one simplex to the next. */
  function AssignSimplices(table: Table, simplices: seq<seq<Word>>): (r: (Table, seq<seq<nat>>))
    ensures |r.1| == |simplices|
  {
    if |simplices| == 0 then (table, [])
    else
      var (t, lists) := AssignSimplices(table, simplices[..|simplices| - 1]);
      var (u, indices) := AssignFaces(t, Faces(simplices[|simplices| - 1]));
      (u, lists + [indices])
  }

  /** Assigning one more simplex extends the lists by that simplex's face indices. */
  lemma AssignSimplicesNext(table: Table, simplices: seq<seq<Word>>, i: nat)
    requires i < |simplices|
    ensures var (t, lists) := AssignSimplices(table, simplices[..i]);
            AssignSimplices(table, simplices[..i + 1])
            == (AssignFaces(t, Faces(simplices[i])).0, lists + [AssignFaces(t, Faces(simplices[i])).1])
  {
    assert simplices[..i + 1][..i] == simplices[..i];
  }

  /** Replacing entry `i` of a list splits it into the prefix, the new entry and the rest. */
  lemma SetAt(s: seq<seq<nat>>, i: nat, x: seq<nat>)
    requires i < |s|
    ensures s[i := x][..i + 1] == s[..i] + [x] && s[i := x][i + 1..] == s[i + 1..]
  {
  }

  /** `n` empty lists. */
  function Empties(n: nat): (r: seq<seq<nat>>)
    ensures |r| == n && forall i :: 0 <= i < n ==> r[i] == []
  {
    seq(n, i => [])
  }

  /** What `make_boundary_map` returns: the face index lists of the full rows of
      `dimensionN1`, padded with empty lists to one list per word, and the word count of
      `dimensionN`. */
  function BoundaryMap(dimensionN1: seq<Word>, dimensionN: seq<Word>, chunkSize: nat): (seq<seq<nat>>, nat)
    requires chunkSize > 0
  {
    var lists := AssignSimplices(SeedTable(Rows(dimensionN, chunkSize)), Rows(dimensionN1, chunkSize)).1;
    RowsFewer(dimensionN1, chunkSize);
    (lists + Empties(|dimensionN1| - |lists|), |dimensionN|)
  }

  /** The table after the boundary map. */
  function FinalTable(dimensionN1: seq<Word>, dimensionN: seq<Word>, chunkSize: nat): Table
    requires chunkSize > 0
  {
    AssignSimplices(SeedTable(Rows(dimensionN, chunkSize)), Rows(dimensionN1, chunkSize)).0
  }

  /** Looking up faces keeps every entry of the table, enters only the faces, gives each
      face the index the table holds for it afterwards, and keeps a dense table dense. */
  lemma {:induction false} AssignFacesSpec(table: Table, faces: seq<seq<Word>>)
    ensures Extends(AssignFaces(table, faces).0, table)
    ensures forall key :: key in AssignFaces(table, faces).0 ==> key in table || key in faces
    ensures forall j :: 0 <= j < |faces| ==>
              faces[j] in AssignFaces(table, faces).0
              && AssignFaces(table, faces).1[j] == AssignFaces(table, faces).0[faces[j]]
    ensures Dense(table) ==> Dense(AssignFaces(table, faces).0)
  {
    if |faces| > 0 {
      var last := |faces| - 1;
      var front := faces[..last];
      AssignFacesSpec(table, front);
      assert faces == front + [faces[last]];
      AssignFaceStep(table, front, faces[last], AssignFaces(table, front).0, AssignFaces(table, front).1,
                     AssignFaces(table, faces).0, AssignFaces(table, faces).1);
    }
  }

  /** One face looked up after `front`. */
  lemma {:induction false} AssignFaceStep(table: Table, front: seq<seq<Word>>, face: seq<Word>,
                                          t0: Table, idx0: seq<nat>, t: Table, idx: seq<nat>)
    requires Extends(t0, table)
    requires forall key :: key in t0 ==> key in table || key in front
    requires |idx0| == |front|
    requires forall j :: 0 <= j < |front| ==> front[j] in t0 && idx0[j] == t0[front[j]]
    requires face in t0 ==> t == t0 && idx == idx0 + [t0[face]]
    requires face !in t0 ==> t == t0[face := |t0|] && idx == idx0 + [|t0|]
    ensures Extends(t, table)
    ensures forall key :: key in t ==> key in table || key in front + [face]
    ensures forall j :: 0 <= j < |front + [face]| ==> (front + [face])[j] in t && idx[j] == t[(front + [face])[j]]
    ensures Dense(t0) ==> Dense(t)
  {
    if face !in t0 {
      assert |t| == |t0| + 1;
    }
    forall j | 0 <= j < |front + [face]|
      ensures (front + [face])[j] in t && idx[j] == t[(front + [face])[j]]
    {
      if j < |front| {
        assert (front + [face])[j] == front[j];
      }
    }
  }

  /** `indices` lists, face by face, the index `u` holds for each face. */
  ghost predicate IndexedBy(u: Table, faces: seq<seq<Word>>, indices: seq<nat>) {
    |indices| == |faces| && forall j :: 0 <= j < |faces| ==> faces[j] in u && indices[j] == u[faces[j]]
  }

  /** Each list of `lists` indexes the faces of its simplex by `u`. */
  ghost predicate Consistent(u: Table, simplices: seq<seq<Word>>, lists: seq<seq<nat>>) {
    |lists| == |simplices| && forall i :: 0 <= i < |simplices| ==> IndexedBy(u, Faces(simplices[i]), lists[i])
  }

  lemma IndexedByExtends(u: Table, t: Table, faces: seq<seq<Word>>, indices: seq<nat>)
    requires IndexedBy(t, faces, indices) && Extends(u, t)
    ensures IndexedBy(u, faces, indices)
  {
  }

  /** The lists of `AssignSimplices` index each simplex's faces, in `faces_of` order, by the
      final table; the final table keeps every entry it started with, and stays dense. */
  lemma {:induction false} AssignSimplicesSpec(table: Table, simplices: seq<seq<Word>>)
    ensures Extends(AssignSimplices(table, simplices).0, table)
    ensures Consistent(AssignSimplices(table, simplices).0, simplices, AssignSimplices(table, simplices).1)
    ensures Dense(table) ==> Dense(AssignSimplices(table, simplices).0)
  {
    if |simplices| > 0 {
      var last := |simplices| - 1;
      var front := simplices[..last];
      AssignSimplicesSpec(table, front);
      var t := AssignSimplices(table, front).0;
      var lists0 := AssignSimplices(table, front).1;
      var faces := Faces(simplices[last]);
      AssignFacesSpec(t, faces);
      var u := AssignFaces(t, faces).0;
      var idx := AssignFaces(t, faces).1;
      assert AssignSimplices(table, simplices) == (u, lists0 + [idx]);
      SimplexStep(table, t, u, front, simplices[last], lists0, idx);
      assert front + [simplices[last]] == simplices;
    }
  }

  lemma {:induction false} SimplexStep(table: Table, t: Table, u: Table, front: seq<seq<Word>>, s: seq<Word>,
                                       lists0: seq<seq<nat>>, idx: seq<nat>)
    requires Extends(t, table) && Consistent(t, front, lists0)
    requires Extends(u, t) && IndexedBy(u, Faces(s), idx)
    ensures Extends(u, table)
    ensures Consistent(u, front + [s], lists0 + [idx])
  {
    forall i | 0 <= i < |front + [s]|
      ensures IndexedBy(u, Faces((front + [s])[i]), (lists0 + [idx])[i])
    {
      if i < |front| {
        assert (front + [s])[i] == front[i] && (lists0 + [idx])[i] == lists0[i];
        IndexedByExtends(u, t, Faces(front[i]), lists0[i]);
      }
    }
  }

  /** The seeded table holds exactly the rows, each with the last position where it
      occurs. */
  lemma {:induction false} SeedTableSpec(rows: seq<seq<Word>>)
    ensures forall key :: key in SeedTable(rows) <==> key in rows
    ensures forall key :: key in SeedTable(rows) ==>
              SeedTable(rows)[key] < |rows| && rows[SeedTable(rows)[key]] == key
    ensures forall k :: 0 <= k < |rows| ==> k <= SeedTable(rows)[rows[k]]
  {
    if |rows| > 0 {
      var last := |rows| - 1;
      SeedTableSpec(rows[..last]);
      assert forall key :: key in rows <==> key in rows[..last] || key == rows[last];
      forall k | 0 <= k < |rows|
        ensures k <= SeedTable(rows)[rows[k]]
      {
        if k < last && rows[k] != rows[last] {
          assert rows[..last][k] == rows[k];
        }
      }
    }
  }

  predicate Distinct(rows: seq<seq<Word>>) {
    forall i, j :: 0 <= i < j < |rows| ==> rows[i] != rows[j]
  }

  /** With no row repeated, lower clique `k` gets index `k` and the table is dense. */
  lemma {:induction false} SeedTableDistinct(rows: seq<seq<Word>>)
    requires Distinct(rows)
    ensures |SeedTable(rows)| == |rows|
    ensures forall k :: 0 <= k < |rows| ==> rows[k] in SeedTable(rows) && SeedTable(rows)[rows[k]] == k
    ensures Dense(SeedTable(rows))
  {
    SeedTableSpec(rows);
    if |rows| > 0 {
      var last := |rows| - 1;
      SeedTableSpec(rows[..last]);
      SeedTableDistinct(rows[..last]);
      assert rows[last] !in rows[..last];
    }
    var t := SeedTable(rows);
    forall k | 0 <= k < |rows|
      ensures rows[k] in t && t[rows[k]] == k
    {
      assert rows[k] in rows;
      assert rows[t[rows[k]]] == rows[k];
    }
  }

  /** Lines 97-101 of the source for one simplex: look up its faces in order, entering the
      absent ones. */
  method FaceIndices(table: Table, faces: seq<seq<Word>>) returns (t: Table, indices: seq<nat>)
    ensures (t, indices) == AssignFaces(table, faces)
  {
    t, indices := table, [];
    var j := 0;
    while j < |faces|
      invariant j <= |faces| && (t, indices) == AssignFaces(table, faces[..j])
    {
      assert faces[..j + 1][..j] == faces[..j];
      var newIdx := |t|;
      if faces[j] !in t {
        t := t[faces[j] := newIdx];
      }
      indices := indices + [t[faces[j]]];
      j := j + 1;
    }
    assert faces[..j] == faces;
  }

  /** Lines 91-94 of the source: the table of the lower cliques and their row positions. */
  method SeedLookup(lower: seq<seq<Word>>) returns (table: Table)
    ensures table == SeedTable(lower)
  {
    table := map[];
    var k := 0;
    while k < |lower|
      invariant k <= |lower| && table == SeedTable(lower[..k])
    {
      assert lower[..k + 1][..k] == lower[..k];
      table := table[lower[k] := k];
      k := k + 1;
    }
    assert lower[..k] == lower;
  }

  /** Lines 90 and 95-103 of the source: `width` lists, the first ones the face index lists
      of the simplices and the rest empty. */
  method FaceLists(seed: Table, upper: seq<seq<Word>>, width: nat) returns (indexMap: seq<seq<nat>>)
    requires |upper| <= width
    ensures indexMap == AssignSimplices(seed, upper).1 + Empties(width - |upper|)
  {
    indexMap := Empties(width);
    var table := seed;
    var i := 0;
    while i < |upper|
      invariant i <= |upper| && |indexMap| == width
      invariant (table, indexMap[..i]) == AssignSimplices(seed, upper[..i])
      invariant indexMap[i..] == Empties(width - i)
    {
      AssignSimplicesNext(seed, upper, i);
      var faces := FacesOf(upper[i]);
      var indices;
      table, indices := FaceIndices(table, faces);
      ghost var prev := indexMap;
      indexMap := indexMap[i := indices];
      SetAt(prev, i, indices);
      i := i + 1;
    }
    assert upper[..i] == upper;
    assert indexMap == indexMap[..i] + indexMap[i..];
  }

  /** `make_boundary_map`: seed the table with the lower cliques and their row positions,
      then list, for each higher clique, the indices of its faces. */
  method MakeBoundaryMap(dimensionN1: seq<Word>, dimensionN: seq<Word>, chunkSize: nat)
    returns (indexMap: seq<seq<nat>>, nCols: nat)
    requires chunkSize > 0
    ensures (indexMap, nCols) == BoundaryMap(dimensionN1, dimensionN, chunkSize)
  {
    var seed := SeedLookup(Rows(dimensionN, chunkSize));
    RowsFewer(dimensionN1, chunkSize);
    indexMap := FaceLists(seed, Rows(dimensionN1, chunkSize), |dimensionN1|);
    nCols := |dimensionN|;
  }

  /** `make_boundary_map` gives one list per word of `dimensionN1`: for each full row, the
      indices its faces have in the final table, as many as the row has vertices, and an
      empty list past the full rows; the second result is the word count of `dimensionN`.
      With no lower clique repeated, lower clique `k` keeps index `k`, the final table is
      dense, and every listed index is below its size. */
  lemma BoundaryMapSpec(dimensionN1: seq<Word>, dimensionN: seq<Word>, chunkSize: nat)
    requires chunkSize > 0
    ensures |BoundaryMap(dimensionN1, dimensionN, chunkSize).0| == |dimensionN1|
    ensures BoundaryMap(dimensionN1, dimensionN, chunkSize).1 == |dimensionN|
    ensures forall i :: 0 <= i < |Rows(dimensionN1, chunkSize)| ==>
              |BoundaryMap(dimensionN1, dimensionN, chunkSize).0[i]| == NElements(Rows(dimensionN1, chunkSize)[i])
              && IndexedBy(FinalTable(dimensionN1, dimensionN, chunkSize), Faces(Rows(dimensionN1, chunkSize)[i]),
                           BoundaryMap(dimensionN1, dimensionN, chunkSize).0[i])
    ensures forall i :: |Rows(dimensionN1, chunkSize)| <= i < |dimensionN1| ==>
              BoundaryMap(dimensionN1, dimensionN, chunkSize).0[i] == []
    ensures Distinct(Rows(dimensionN, chunkSize)) ==>
              Dense(FinalTable(dimensionN1, dimensionN, chunkSize))
              && (forall k :: 0 <= k < |Rows(dimensionN, chunkSize)| ==>
                    Rows(dimensionN, chunkSize)[k] in FinalTable(dimensionN1, dimensionN, chunkSize)
                    && FinalTable(dimensionN1, dimensionN, chunkSize)[Rows(dimensionN, chunkSize)[k]] == k)
              && (forall i, j :: 0 <= i < |dimensionN1| && 0 <= j < |BoundaryMap(dimensionN1, dimensionN, chunkSize).0[i]| ==>
                    BoundaryMap(dimensionN1, dimensionN, chunkSize).0[i][j] < |FinalTable(dimensionN1, dimensionN, chunkSize)|)
  {
    var lower := Rows(dimensionN, chunkSize);
    var upper := Rows(dimensionN1, chunkSize);
    var seed := SeedTable(lower);
    var lists := AssignSimplices(seed, upper).1;
    var u := FinalTable(dimensionN1, dimensionN, chunkSize);
    var result := BoundaryMap(dimensionN1, dimensionN, chunkSize).0;
    RowsFewer(dimensionN1, chunkSize);
    AssignSimplicesSpec(seed, upper);
    assert result == lists + Empties(|dimensionN1| - |lists|);
    forall i | 0 <= i < |upper|
      ensures |result[i]| == NElements(upper[i]) && IndexedBy(u, Faces(upper[i]), result[i])
    {
      assert result[i] == lists[i];
      FacesSpec(upper[i]);
    }
    forall i | |upper| <= i < |dimensionN1|
      ensures result[i] == []
    {
      assert result[i] == Empties(|dimensionN1| - |lists|)[i - |lists|];
    }
    if Distinct(lower) {
      SeedTableDistinct(lower);
      forall i, j | 0 <= i < |dimensionN1| && 0 <= j < |result[i]|
        ensures result[i][j] < |u|
      {
        assert result[i] == lists[i];
        assert Faces(upper[i])[j] in u;
      }
    }
  }

  // ----------------------------------------------------------------------------
  // `read_adjacency_matrix`

  /** The one-vertex lists `[0], [1], ..., [n - 1]`. */
  function SingletonLists(n: nat): (r: seq<seq<nat>>)
    ensures |r| == n && forall i :: 0 <= i < n ==> r[i] == [i]
  {
    seq(n, i => [i])
  }

  /** The length of each neighbour list. */
  function Degrees(adjacencyMatrix: seq<seq<nat>>): (r: seq<nat>)
    ensures |r| == |adjacencyMatrix| && forall i :: 0 <= i < |r| ==> r[i] == |adjacencyMatrix[i]|
  {
    seq(|adjacencyMatrix|, i requires 0 <= i < |adjacencyMatrix| => |adjacencyMatrix[i]|)
  }

  /** `chunk_size` of `read_adjacency_matrix`: one word more than the vertices need when
      the vertex count is a multiple of 64. */
  function ChunkSize(n: nat): (r: nat)
    ensures r > 0 && n < 64 * r
  {
    (n + 64) / 64
  }

  /** Appending the packed row of one more list. */
  lemma PackStep(lists: seq<seq<nat>>, nChunks: nat, i: nat)
    requires i < |lists| && Homology.AllFit(lists, nChunks)
    ensures Homology.AllFit(lists[..i], nChunks) && Homology.AllFit(lists[..i + 1], nChunks)
    ensures Flatten(Homology.PackedRows(lists[..i + 1], nChunks))
         == Flatten(Homology.PackedRows(lists[..i], nChunks)) + FromIndices(lists[i], nChunks)
  {
    assert lists[..i + 1][..i] == lists[..i];
    var rows := Homology.PackedRows(lists[..i], nChunks);
    FlattenConcat(rows, [FromIndices(lists[i], nChunks)]);
    FlattenOne(FromIndices(lists[i], nChunks));
  }

  /** Appending the degree of one more list. */
  lemma DegreesStep(adjacencyMatrix: seq<seq<nat>>, i: nat)
    requires i < |adjacencyMatrix|
    ensures Degrees(adjacencyMatrix[..i + 1]) == Degrees(adjacencyMatrix[..i]) + [|adjacencyMatrix[i]|]
  {
    var a := Degrees(adjacencyMatrix[..i + 1]);
    var b := Degrees(adjacencyMatrix[..i]) + [|adjacencyMatrix[i]|];
    assert forall j :: 0 <= j < |a| ==> a[j] == b[j];
  }

  /** The singleton lists fit rows of `ChunkSize(n)` words. */
  lemma SingletonsFit(n: nat)
    ensures Homology.AllFit(SingletonLists(n), ChunkSize(n))
  {
    var lists := SingletonLists(n);
    forall i | 0 <= i < n
      ensures Fits(lists[i], ChunkSize(n))
    {
      assert lists[i] == [i];
    }
  }

  /** `read_adjacency_matrix`: one matrix row per neighbour list, the singleton clique of
      each vertex, and the list lengths as degrees, all rows `chunk_size` words wide. */
  method ReadAdjacencyMatrix(adjacencyMatrix: seq<seq<nat>>)
    returns (matrix: seq<Word>, chunkSize: nat, cliques: seq<Word>, degrees: seq<nat>)
    requires Homology.AllFit(adjacencyMatrix, ChunkSize(|adjacencyMatrix|))
    ensures chunkSize == ChunkSize(|adjacencyMatrix|)
    ensures matrix == AdjacencyRows(adjacencyMatrix)
    ensures cliques == SingletonRows(|adjacencyMatrix|)
    ensures degrees == Degrees(adjacencyMatrix)
  {
    var n := |adjacencyMatrix|;
    chunkSize := (n + 64) / 64;
    ghost var singles := SingletonLists(n);
    SingletonsFit(n);
    matrix, cliques, degrees := [], [], [];
    var i := 0;
    while i < n
      invariant i <= n
      invariant Homology.AllFit(adjacencyMatrix[..i], chunkSize) && Homology.AllFit(singles[..i], chunkSize)
      invariant matrix == Flatten(Homology.PackedRows(adjacencyMatrix[..i], chunkSize))
      invariant cliques == Flatten(Homology.PackedRows(singles[..i], chunkSize))
      invariant degrees == Degrees(adjacencyMatrix[..i])
    {
      matrix, cliques, degrees := ReadVertex(adjacencyMatrix, chunkSize, i, matrix, cliques, degrees);
      i := i + 1;
    }
    assert adjacencyMatrix[..i] == adjacencyMatrix && singles[..i] == singles;
  }

  /** One step of the loop of `read_adjacency_matrix` (lines 153-160): append vertex `i`'s
      packed neighbour row, its singleton clique and its degree. */
  method ReadVertex(adjacencyMatrix: seq<seq<nat>>, chunkSize: nat, i: nat,
                    matrix: seq<Word>, cliques: seq<Word>, degrees: seq<nat>)
    returns (matrix': seq<Word>, cliques': seq<Word>, degrees': seq<nat>)
    requires i < |adjacencyMatrix| && chunkSize == ChunkSize(|adjacencyMatrix|)
    requires Homology.AllFit(adjacencyMatrix, chunkSize)
    requires Homology.AllFit(adjacencyMatrix[..i], chunkSize)
             && Homology.AllFit(SingletonLists(|adjacencyMatrix|)[..i], chunkSize)
    requires matrix == Flatten(Homology.PackedRows(adjacencyMatrix[..i], chunkSize))
    requires cliques == Flatten(Homology.PackedRows(SingletonLists(|adjacencyMatrix|)[..i], chunkSize))
    requires degrees == Degrees(adjacencyMatrix[..i])
    ensures Homology.AllFit(adjacencyMatrix[..i + 1], chunkSize)
            && Homology.AllFit(SingletonLists(|adjacencyMatrix|)[..i + 1], chunkSize)
    ensures matrix' == Flatten(Homology.PackedRows(adjacencyMatrix[..i + 1], chunkSize))
    ensures cliques' == Flatten(Homology.PackedRows(SingletonLists(|adjacencyMatrix|)[..i + 1], chunkSize))
    ensures degrees' == Degrees(adjacencyMatrix[..i + 1])
  {
    ghost var singles := SingletonLists(|adjacencyMatrix|);
    SingletonsFit(|adjacencyMatrix|);
    PackStep(adjacencyMatrix, chunkSize, i);
    PackStep(singles, chunkSize, i);
    DegreesStep(adjacencyMatrix, i);
    var single: seq<nat> := [i];
    var clique := BitvecFromSlice(single, chunkSize);
    var row := BitvecFromSlice(adjacencyMatrix[i], chunkSize);
    var degree: nat := |adjacencyMatrix[i]|;
    matrix', cliques', degrees' := matrix + row, cliques + clique, degrees + [degree];
  }

  /** Every listed neighbour is one of the vertices. */
  predicate WellFormed(adjacencyMatrix: seq<seq<nat>>) {
    forall i, k :: 0 <= i < |adjacencyMatrix| && 0 <= k < |adjacencyMatrix[i]| ==>
      adjacencyMatrix[i][k] < |adjacencyMatrix|
  }

  /** Neighbours below the vertex count fit rows of `chunk_size` words. */
  lemma WellFormedFits(adjacencyMatrix: seq<seq<nat>>)
    requires WellFormed(adjacencyMatrix)
    ensures Homology.AllFit(adjacencyMatrix, ChunkSize(|adjacencyMatrix|))
  {
    var c := ChunkSize(|adjacencyMatrix|);
    forall i | 0 <= i < |adjacencyMatrix|
      ensures Fits(adjacencyMatrix[i], c)
    {
      forall k | 0 <= k < |adjacencyMatrix[i]|
        ensures adjacencyMatrix[i][k] / 64 < c
      {
        assert adjacencyMatrix[i][k] < |adjacencyMatrix|;
      }
    }
  }

  /** The matrix `read_adjacency_matrix` builds: the neighbour lists packed into rows of
      `chunk_size` words. */
  function AdjacencyRows(adjacencyMatrix: seq<seq<nat>>): seq<Word>
    requires Homology.AllFit(adjacencyMatrix, ChunkSize(|adjacencyMatrix|))
  {
    Flatten(Homology.PackedRows(adjacencyMatrix, ChunkSize(|adjacencyMatrix|)))
  }

  /** The seed cliques `read_adjacency_matrix` builds: one row per vertex, holding it alone. */
  function SingletonRows(n: nat): seq<Word> {
    SingletonsFit(n);
    Flatten(Homology.PackedRows(SingletonLists(n), ChunkSize(n)))
  }

  /** Matrix row `i` holds exactly the neighbours listed for vertex `i`. */
  lemma AdjacencyRowsSpec(adjacencyMatrix: seq<seq<nat>>)
    requires Homology.AllFit(adjacencyMatrix, ChunkSize(|adjacencyMatrix|))
    ensures Uniform(Rows(AdjacencyRows(adjacencyMatrix), ChunkSize(|adjacencyMatrix|)), ChunkSize(|adjacencyMatrix|))
    ensures |Rows(AdjacencyRows(adjacencyMatrix), ChunkSize(|adjacencyMatrix|))| == |adjacencyMatrix|
    ensures forall i: nat, q: nat :: i < |adjacencyMatrix| ==>
              (InRow(Rows(AdjacencyRows(adjacencyMatrix), ChunkSize(|adjacencyMatrix|))[i], q) <==> q in adjacencyMatrix[i])
  {
    Homology.PackedRowsSpec(adjacencyMatrix, ChunkSize(|adjacencyMatrix|));
    Homology.PackedRowsAt(adjacencyMatrix, ChunkSize(|adjacencyMatrix|));
  }

  /** Clique row `i` holds exactly vertex `i`: a clique of one vertex. */
  lemma SingletonRowsSpec(n: nat)
    ensures |SingletonRows(n)| == n * ChunkSize(n)
    ensures Uniform(Rows(SingletonRows(n), ChunkSize(n)), ChunkSize(n))
    ensures |Rows(SingletonRows(n), ChunkSize(n))| == n
    ensures forall i :: 0 <= i < n ==>
              Positions(Rows(SingletonRows(n), ChunkSize(n))[i]) == [i]
              && NElements(Rows(SingletonRows(n), ChunkSize(n))[i]) == 1
  {
    var c := ChunkSize(n);
    var singles := SingletonLists(n);
    SingletonsFit(n);
    Homology.PackedRowsSpec(singles, c);
    Homology.PackedRowsAt(singles, c);
    var bank := Rows(SingletonRows(n), c);
    forall i | 0 <= i < n
      ensures Positions(bank[i]) == [i] && NElements(bank[i]) == 1
    {
      assert bank[i] == FromIndices([i], c);
      IndexesRoundTrip([i], c, [i]);
      PositionsLength(bank[i]);
    }
  }

  /** No two seed cliques are the same: each holds a different vertex. */
  lemma {:induction false} SingletonRowsDistinct(n: nat)
    ensures Distinct(Rows(SingletonRows(n), ChunkSize(n)))
  {
    var bank := Rows(SingletonRows(n), ChunkSize(n));
    SingletonRowsSpec(n);
    forall i, j | 0 <= i < j < |bank|
      ensures bank[i] != bank[j]
    {
      assert Positions(bank[i]) == [i] != [j] == Positions(bank[j]);
    }
  }

  /** When every listed neighbour is a vertex, every vertex of the matrix has a row. */
  lemma WellFormedClosed(adjacencyMatrix: seq<seq<nat>>)
    requires WellFormed(adjacencyMatrix)
    ensures Closed(Rows(AdjacencyRows(adjacencyMatrix), ChunkSize(|adjacencyMatrix|)))
  {
    WellFormedFits(adjacencyMatrix);
    var rows := Rows(AdjacencyRows(adjacencyMatrix), ChunkSize(|adjacencyMatrix|));
    AdjacencyRowsSpec(adjacencyMatrix);
    forall r: nat, q: nat | r < |rows| && InRow(rows[r], q)
      ensures q < |rows|
    {
      assert q in adjacencyMatrix[r];
    }
  }

  /** Every singleton clique is a seed for `next_cliques`. */
  lemma SingletonSeeds(adjacencyMatrix: seq<seq<nat>>)
    requires WellFormed(adjacencyMatrix)
    ensures SeedBank(Rows(AdjacencyRows(adjacencyMatrix), ChunkSize(|adjacencyMatrix|)),
                     Rows(SingletonRows(|adjacencyMatrix|), ChunkSize(|adjacencyMatrix|)), ChunkSize(|adjacencyMatrix|))
  {
    WellFormedFits(adjacencyMatrix);
    AdjacencyRowsSpec(adjacencyMatrix);
    SingletonBank(Rows(AdjacencyRows(adjacencyMatrix), ChunkSize(|adjacencyMatrix|)), |adjacencyMatrix|);
  }

  /** The singleton cliques of `n` vertices seed any `n` rows. */
  lemma SingletonBank(rows: seq<seq<Word>>, n: nat)
    requires Uniform(rows, ChunkSize(n)) && |rows| == n
    ensures SeedBank(rows, Rows(SingletonRows(n), ChunkSize(n)), ChunkSize(n))
  {
    var bank := Rows(SingletonRows(n), ChunkSize(n));
    SingletonRowsSpec(n);
    forall i | 0 <= i < |bank|
      ensures Seed(rows, bank[i])
    {
      assert Positions(bank[i]) == [i];
    }
  }

  // ----------------------------------------------------------------------------
  // `betti`

  /** The state at the top of each round of `betti`: the seeds all have the clique size
      of the first one, no seed is repeated, their vertices have rows, and the degree list
      fits the rows. */
  ghost predicate RoundReady(matrix: seq<Word>, chunkSize: nat, cliques: seq<Word>, degrees: seq<nat>) {
    && chunkSize > 0 && chunkSize <= |cliques| && |degrees| <= 64 * chunkSize
    && Closed(Rows(matrix, chunkSize))
    && SeedBank(Rows(matrix, chunkSize), Rows(cliques, chunkSize), chunkSize)
    && Distinct(Rows(cliques, chunkSize))
    && forall i :: 0 <= i < |Rows(cliques, chunkSize)| ==>
         NElements(Rows(cliques, chunkSize)[i]) == CliqueSize(cliques, chunkSize)
  }

  /** The vertices of low degree are indices of rows. */
  lemma IndicesFit(degrees: seq<nat>, s: nat, chunkSize: nat)
    requires |degrees| <= 64 * chunkSize
    ensures Fits(IndicesSmallerThan(degrees, s), chunkSize)
  {
    var indices := IndicesSmallerThan(degrees, s);
    forall k | 0 <= k < |indices|
      ensures indices[k] / 64 < chunkSize
    {
      assert indices[k] in indices;
    }
  }

  /** The clique size is the vertex count of the first row. */
  lemma FirstRow(cliques: seq<Word>, chunkSize: nat)
    requires 0 < chunkSize <= |cliques|
    ensures |Rows(cliques, chunkSize)| > 0 && Rows(cliques, chunkSize)[0] == cliques[..chunkSize]
  {
  }

  /** A list of distinct vertices below `n` has at most `n` entries. */
  lemma {:induction false} IncreasingBound(s: seq<nat>, n: nat)
    requires StrictlyIncreasing(s) && InRange(s, n)
    ensures |s| <= n
  {
    if |s| > 0 {
      var last := |s| - 1;
      assert StrictlyIncreasing(s[..last]) && InRange(s[..last], s[last]);
      IncreasingBound(s[..last], s[last]);
    }
  }

  /** A seed holds no more vertices than there are rows. */
  lemma SeedSize(rows: seq<seq<Word>>, clique: seq<Word>)
    requires Seed(rows, clique)
    ensures NElements(clique) <= |rows|
  {
    PositionsFacts(clique);
    IncreasingBound(Positions(clique), |rows|);
  }

  /** A nonempty bank of seeds of `t` vertices, flattened, is ready for a round over the
      rows, with clique size `t`, no more than there are rows. */
  lemma ReadyBank(matrix: seq<Word>, chunkSize: nat, grown: seq<seq<Word>>, degrees: seq<nat>, t: nat)
    requires chunkSize > 0 && |degrees| <= 64 * chunkSize && |grown| > 0
    requires Closed(Rows(matrix, chunkSize)) && Bank(Rows(matrix, chunkSize), grown, chunkSize, t)
    requires Distinct(grown)
    ensures RoundReady(matrix, chunkSize, Flatten(grown), degrees)
    ensures CliqueSize(Flatten(grown), chunkSize) == t <= |Rows(matrix, chunkSize)|
  {
    var next := Flatten(grown);
    FlattenLength(grown, chunkSize);
    assert next + [] == next;
    RowsOfFlatten(grown, [], chunkSize);
    FirstRow(next, chunkSize);
    SeedSize(Rows(matrix, chunkSize), grown[0]);
  }

  /** Pruning the low-degree vertices keeps the rows closed, the bank a bank of seeds, and
      the row count. */
  lemma PruneRound(matrix: seq<Word>, chunkSize: nat, cliques: seq<Word>, degrees: seq<nat>)
    requires RoundReady(matrix, chunkSize, cliques, degrees)
    ensures Fits(IndicesSmallerThan(degrees, CliqueSize(cliques, chunkSize)), chunkSize)
    ensures var pruned := Pruned(matrix, chunkSize, IndicesSmallerThan(degrees, CliqueSize(cliques, chunkSize)));
            Closed(Rows(pruned, chunkSize))
            && SeedBank(Rows(pruned, chunkSize), Rows(cliques, chunkSize), chunkSize)
            && |Rows(pruned, chunkSize)| == |Rows(matrix, chunkSize)|
  {
    var indices := IndicesSmallerThan(degrees, CliqueSize(cliques, chunkSize));
    IndicesFit(degrees, CliqueSize(cliques, chunkSize), chunkSize);
    PruneKeepsSeeds(matrix, chunkSize, indices, Rows(cliques, chunkSize));
    PrunedSpec(matrix, chunkSize, indices);
  }

  /** Growing a ready bank over closed rows gives, when anything grows, a bank ready for the
      next round whose clique size is one larger and within the rows' vertices. */
  lemma GrowReady(pruned: seq<Word>, chunkSize: nat, cliques: seq<Word>, degrees: seq<nat>)
    requires 0 < chunkSize <= |cliques| && |degrees| <= 64 * chunkSize
    requires Closed(Rows(pruned, chunkSize)) && SeedBank(Rows(pruned, chunkSize), Rows(cliques, chunkSize), chunkSize)
    requires Distinct(Rows(cliques, chunkSize))
    requires forall i :: 0 <= i < |Rows(cliques, chunkSize)| ==>
               NElements(Rows(cliques, chunkSize)[i]) == CliqueSize(cliques, chunkSize)
    ensures var next := Flatten(NewCliques(Rows(pruned, chunkSize), Rows(cliques, chunkSize), chunkSize));
            |next| > 0 ==>
              RoundReady(pruned, chunkSize, next, degrees)
              && CliqueSize(next, chunkSize) == CliqueSize(cliques, chunkSize) + 1
              && CliqueSize(next, chunkSize) <= |Rows(pruned, chunkSize)|
  {
    var rows, bank := Rows(pruned, chunkSize), Rows(cliques, chunkSize);
    var s := CliqueSize(cliques, chunkSize);
    var grown := NewCliques(rows, bank, chunkSize);
    assert Bank(rows, grown, chunkSize, s + 1) by {
      NewCliquesSpec(rows, bank, chunkSize, s);
    }
    NewCliquesDistinct(rows, bank, chunkSize);
    FlattenLength(grown, chunkSize);
    if |grown| > 0 {
      ReadyBank(pruned, chunkSize, grown, degrees, s + 1);
    }
  }

  /** In every round `betti` reaches no lower clique is repeated, so the boundary map of the
      round, whatever the higher cliques, keeps lower clique `k` at index `k` in a dense
      final table, and every face index it lists is below the table's size. */
  lemma ReadyBoundaryMap(matrix: seq<Word>, chunkSize: nat, cliques: seq<Word>, degrees: seq<nat>, upper: seq<Word>)
    requires RoundReady(matrix, chunkSize, cliques, degrees)
    ensures Dense(FinalTable(upper, cliques, chunkSize))
    ensures forall k :: 0 <= k < |Rows(cliques, chunkSize)| ==>
              Rows(cliques, chunkSize)[k] in FinalTable(upper, cliques, chunkSize)
              && FinalTable(upper, cliques, chunkSize)[Rows(cliques, chunkSize)[k]] == k
    ensures forall i, j :: 0 <= i < |upper| && 0 <= j < |BoundaryMap(upper, cliques, chunkSize).0[i]| ==>
              BoundaryMap(upper, cliques, chunkSize).0[i][j] < |FinalTable(upper, cliques, chunkSize)|
  {
    BoundaryMapSpec(upper, cliques, chunkSize);
  }

  /** The pruned matrix and the new cliques of one round, and what the next round needs. */
  function Advance(matrix: seq<Word>, chunkSize: nat, cliques: seq<Word>, degrees: seq<nat>): (r: (seq<Word>, seq<Word>))
    requires RoundReady(matrix, chunkSize, cliques, degrees)
    ensures CliqueSize(cliques, chunkSize) <= |Rows(matrix, chunkSize)|
    ensures |r.1| > 0 ==>
              RoundReady(r.0, chunkSize, r.1, degrees)
              && CliqueSize(r.1, chunkSize) == CliqueSize(cliques, chunkSize) + 1
              && CliqueSize(r.1, chunkSize) <= |Rows(matrix, chunkSize)|
              && |Rows(r.0, chunkSize)| == |Rows(matrix, chunkSize)|
  {
    PruneRound(matrix, chunkSize, cliques, degrees);
    GrowReady(Pruned(matrix, chunkSize, IndicesSmallerThan(degrees, CliqueSize(cliques, chunkSize))),
              chunkSize, cliques, degrees);
    FirstRow(cliques, chunkSize);
    SeedSize(Rows(matrix, chunkSize), cliques[..chunkSize]);
    var pruned := Pruned(matrix, chunkSize, IndicesSmallerThan(degrees, CliqueSize(cliques, chunkSize)));
    (pruned, Flatten(NewCliques(Rows(pruned, chunkSize), Rows(cliques, chunkSize), chunkSize)))
  }

  /** The number `betti` pushes for a round (line 137): the new cliques less the ranks of
      the previous and of the current boundary matrix. */
  function BettiNumber(count: nat, prevRank: nat, rank: nat): nat
    requires prevRank + rank <= count
  {
    count - prevRank - rank
  }

  /** The outcome of `betti` from a round ready state on, `pushed` holding the Betti
      numbers pushed so far: each round prunes the low-degree vertices and grows the
      cliques, and ends the loop with the numbers pushed when none grow; otherwise it
      builds the boundary matrix of the new cliques over the old ones, eliminates it,
      pushes `|new_cliques| - prev_rank - rank` and goes on. The panics of the source are
      error outcomes: a face index past the matrix row (`FaceOutOfRange`), a pivot row past
      the last full row (`PivotOutOfRange`) and the `usize` subtraction going below zero
      (`Underflow`). */
  function Rounds(matrix: seq<Word>, chunkSize: nat, cliques: seq<Word>, degrees: seq<nat>, prevRank: nat,
                  pushed: seq<nat>): (r: Result<seq<nat>>)
    requires RoundReady(matrix, chunkSize, cliques, degrees)
    ensures r != Err(NoSeedCliques)
    ensures r.Ok? ==> |pushed| <= |r.value|
    ensures r.Ok? ==> |r.value| + CliqueSize(cliques, chunkSize) <= |pushed| + |Rows(matrix, chunkSize)|
    decreases |Rows(matrix, chunkSize)| - CliqueSize(cliques, chunkSize)
  {
    var next := Advance(matrix, chunkSize, cliques, degrees);
    if |next.1| == 0 then Ok(pushed)
    else
      var rank := BoundaryRank(next.1, cliques, chunkSize);
      if rank.Err? then Err(rank.error)
      else if |next.1| < prevRank + rank.value then Err(Underflow)
      else Rounds(next.0, chunkSize, next.1, degrees, rank.value, pushed + [BettiNumber(|next.1|, prevRank, rank.value)])
  }

  /** The rank `betti` takes of the boundary of `dimensionN1` over `dimensionN`: the boundary
      map packed into a matrix, eliminated and its non-zero rows counted; a face index past
      the packed row and a pivot row past the last full row are the panics of
      `boundary_matrix` and `gaussian_elimination`. */
  function BoundaryRank(dimensionN1: seq<Word>, dimensionN: seq<Word>, chunkSize: nat): (r: Result<nat>)
    requires chunkSize > 0
    ensures r.Err? ==> r.error in {FaceOutOfRange, PivotOutOfRange}
  {
    var (indexMap, nCols) := BoundaryMap(dimensionN1, dimensionN, chunkSize);
    if !Homology.AllFit(indexMap, Homology.NChunks(nCols)) then Err(FaceOutOfRange)
    else
      var boundary := Flatten(Homology.PackedRows(indexMap, Homology.NChunks(nCols)));
      if LinAlg.MaxRank(nCols, |boundary|) > |Rows(boundary, LinAlg.RowSize(nCols))| then Err(PivotOutOfRange)
      else Ok(LinAlg.Rank(LinAlg.Eliminated(boundary, nCols), nCols))
  }

  /** Lines 122-136 of `betti`: boundary map, boundary matrix, elimination and rank. */
  method RankOf(dimensionN1: seq<Word>, dimensionN: seq<Word>, chunkSize: nat) returns (r: Result<nat>)
    requires chunkSize > 0
    ensures r == BoundaryRank(dimensionN1, dimensionN, chunkSize)
  {
    var indexMap, nCols := MakeBoundaryMap(dimensionN1, dimensionN, chunkSize);
    if !Homology.AllFit(indexMap, Homology.NChunks(nCols)) {
      return Err(FaceOutOfRange);
    }
    var boundary := Homology.BoundaryMatrix(indexMap, nCols);
    RowCount(boundary, LinAlg.RowSize(nCols));
    if LinAlg.MaxRank(nCols, |boundary|) > |boundary| / ((nCols + 64) / 64) {
      return Err(PivotOutOfRange);
    }
    var eliminated := ToVec(boundary);
    LinAlg.GaussianElimination(eliminated, nCols);
    return Ok(LinAlg.Rank(eliminated[..], nCols));
  }

  /** One round of `Rounds`, unfolded. */
  lemma RoundsUnfold(matrix: seq<Word>, chunkSize: nat, cliques: seq<Word>, degrees: seq<nat>, prevRank: nat,
                     pushed: seq<nat>)
    requires RoundReady(matrix, chunkSize, cliques, degrees)
    ensures var next := Advance(matrix, chunkSize, cliques, degrees);
            var rank := BoundaryRank(next.1, cliques, chunkSize);
            var outcome := Rounds(matrix, chunkSize, cliques, degrees, prevRank, pushed);
            && (|next.1| == 0 ==> outcome == Ok(pushed))
            && (|next.1| > 0 && rank.Err? ==> outcome == Err(rank.error))
            && (|next.1| > 0 && rank.Ok? && |next.1| < prevRank + rank.value ==> outcome == Err(Underflow))
  {
  }

  /** The outcome of `betti` on an adjacency list: no seed clique when there is no vertex
      (the first `next_cliques` call panics), otherwise the rounds from the singleton
      cliques with `prev_rank` 0. */
  function BettiSpec(adjacencyMatrix: seq<seq<nat>>): Result<seq<nat>>
    requires WellFormed(adjacencyMatrix)
  {
    var n := |adjacencyMatrix|;
    WellFormedFits(adjacencyMatrix);
    if |SingletonRows(n)| < ChunkSize(n) then Err(NoSeedCliques)
    else
      StartReady(adjacencyMatrix);
      Rounds(AdjacencyRows(adjacencyMatrix), ChunkSize(n), SingletonRows(n), Degrees(adjacencyMatrix), 0, [])
  }

  /** With at least one vertex the state `read_adjacency_matrix` builds is ready for the
      first round, with cliques of one vertex. */
  lemma StartReady(adjacencyMatrix: seq<seq<nat>>)
    requires WellFormed(adjacencyMatrix)
    requires ChunkSize(|adjacencyMatrix|) <= |SingletonRows(|adjacencyMatrix|)|
    ensures Homology.AllFit(adjacencyMatrix, ChunkSize(|adjacencyMatrix|))
    ensures RoundReady(AdjacencyRows(adjacencyMatrix), ChunkSize(|adjacencyMatrix|),
                       SingletonRows(|adjacencyMatrix|), Degrees(adjacencyMatrix))
    ensures CliqueSize(SingletonRows(|adjacencyMatrix|), ChunkSize(|adjacencyMatrix|)) == 1
  {
    var n := |adjacencyMatrix|;
    WellFormedFits(adjacencyMatrix);
    WellFormedClosed(adjacencyMatrix);
    SingletonSeeds(adjacencyMatrix);
    SingletonRowsSpec(n);
    SingletonRowsDistinct(n);
    FirstRow(SingletonRows(n), ChunkSize(n));
  }

  /** The `next_cliques` call of a round of `betti`. */
  method GrowRound(matrix: array<Word>, chunkSize: nat, cliques: seq<Word>, degrees: seq<nat>)
    returns (newCliques: seq<Word>)
    requires RoundReady(matrix[..], chunkSize, cliques, degrees)
    modifies matrix
    ensures matrix[..] == Advance(old(matrix[..]), chunkSize, cliques, degrees).0
    ensures newCliques == Advance(old(matrix[..]), chunkSize, cliques, degrees).1
  {
    PruneRound(matrix[..], chunkSize, cliques, degrees);
    var next := NextCliques(matrix, degrees, cliques, chunkSize);
    newCliques := next.value;
  }

  /** A round that grows no clique ends the rounds with the numbers pushed so far. */
  lemma RoundsDone(matrix: seq<Word>, chunkSize: nat, cliques: seq<Word>, degrees: seq<nat>, prevRank: nat,
                   pushed: seq<nat>, next: seq<Word>)
    requires RoundReady(matrix, chunkSize, cliques, degrees)
    requires next == Advance(matrix, chunkSize, cliques, degrees).1 && |next| == 0
    ensures Rounds(matrix, chunkSize, cliques, degrees, prevRank, pushed) == Ok(pushed)
  {
    RoundsUnfold(matrix, chunkSize, cliques, degrees, prevRank, pushed);
  }

  /** A round whose boundary rank fails ends the rounds with that error. */
  lemma RoundsRankFails(matrix: seq<Word>, chunkSize: nat, cliques: seq<Word>, degrees: seq<nat>, prevRank: nat,
                        pushed: seq<nat>, next: seq<Word>, e: Error)
    requires RoundReady(matrix, chunkSize, cliques, degrees)
    requires next == Advance(matrix, chunkSize, cliques, degrees).1 && |next| > 0
    requires BoundaryRank(next, cliques, chunkSize) == Err(e)
    ensures Rounds(matrix, chunkSize, cliques, degrees, prevRank, pushed) == Err(e)
  {
    RoundsUnfold(matrix, chunkSize, cliques, degrees, prevRank, pushed);
  }

  /** A round whose ranks exceed the number of new cliques ends the rounds with the
      subtraction's underflow. */
  lemma RoundsUnderflow(matrix: seq<Word>, chunkSize: nat, cliques: seq<Word>, degrees: seq<nat>, prevRank: nat,
                        pushed: seq<nat>, next: seq<Word>, rank: nat)
    requires RoundReady(matrix, chunkSize, cliques, degrees)
    requires next == Advance(matrix, chunkSize, cliques, degrees).1 && |next| > 0
    requires BoundaryRank(next, cliques, chunkSize) == Ok(rank) && |next| < prevRank + rank
    ensures Rounds(matrix, chunkSize, cliques, degrees, prevRank, pushed) == Err(Underflow)
  {
    RoundsUnfold(matrix, chunkSize, cliques, degrees, prevRank, pushed);
  }

  /** A round that pushes a number goes on from the pruned matrix and the new cliques with
      that number pushed. */
  lemma RoundsStep(matrix: seq<Word>, chunkSize: nat, cliques: seq<Word>, degrees: seq<nat>, prevRank: nat,
                   pushed: seq<nat>, newCliques: seq<Word>, rank: nat)
    requires RoundReady(matrix, chunkSize, cliques, degrees)
    ensures newCliques == Advance(matrix, chunkSize, cliques, degrees).1 && |newCliques| > 0 &&
            BoundaryRank(newCliques, cliques, chunkSize) == Ok(rank) && prevRank + rank <= |newCliques| ==>
              Rounds(matrix, chunkSize, cliques, degrees, prevRank, pushed)
              == Rounds(Advance(matrix, chunkSize, cliques, degrees).0, chunkSize, newCliques, degrees, rank,
                        pushed + [BettiNumber(|newCliques|, prevRank, rank)])
  {
  }

  /** With at least one vertex, the outcome of `betti` is that of the rounds from the
      state `read_adjacency_matrix` builds. */
  lemma BettiStart(adjacencyMatrix: seq<seq<nat>>, matrix: seq<Word>, cliques: seq<Word>)
    requires WellFormed(adjacencyMatrix)
    requires matrix == AdjacencyRows(adjacencyMatrix) && cliques == SingletonRows(|adjacencyMatrix|)
    requires ChunkSize(|adjacencyMatrix|) <= |cliques|
    ensures RoundReady(matrix, ChunkSize(|adjacencyMatrix|), cliques, Degrees(adjacencyMatrix))
    ensures BettiSpec(adjacencyMatrix) == Rounds(matrix, ChunkSize(|adjacencyMatrix|), cliques, Degrees(adjacencyMatrix), 0, [])
  {
    StartReady(adjacencyMatrix);
  }

  // ----------------------------------------------------------------------------
  // What the outcome of `betti` promises

  /** `betti` reports a missing seed exactly when the graph has no vertex, and otherwise
      pushes fewer numbers than there are vertices. */
  lemma BettiBound(adjacencyMatrix: seq<seq<nat>>)
    requires WellFormed(adjacencyMatrix)
    ensures BettiSpec(adjacencyMatrix) == Err(NoSeedCliques) <==> |adjacencyMatrix| == 0
    ensures BettiSpec(adjacencyMatrix).Ok? ==> |BettiSpec(adjacencyMatrix).value| < |adjacencyMatrix|
  {
    var n := |adjacencyMatrix|;
    SingletonRowsSpec(n);
    if ChunkSize(n) <= |SingletonRows(n)| {
      var matrix, cliques := AdjacencyRows(adjacencyMatrix), SingletonRows(n);
      BettiStart(adjacencyMatrix, matrix, cliques);
      StartReady(adjacencyMatrix);
      AdjacencyRowsSpec(adjacencyMatrix);
    }
  }

  /** The first entry of a nonempty list is one of its members. */
  lemma FirstMember(cs: seq<nat>)
    ensures |cs| > 0 ==> cs[0] in cs
  {
  }

  /** Over rows without any vertex a seed has no candidate and so no extension. */
  lemma ExtensionsEmpty(rows: seq<seq<Word>>, clique: seq<Word>)
    requires Seed(rows, clique) && Closed(rows) && Uniform(rows, |clique|)
    requires forall r: nat, q: nat :: r < |rows| ==> !InRow(rows[r], q)
    ensures Extensions(rows, clique) == []
  {
    var cs := Candidates(rows, clique);
    CandidatesSpec(rows, clique);
    var m := MaxVertex(clique);
    PositionsFacts(clique);
    assert m in Positions(clique);
    forall v: nat
      ensures v !in cs
    {
      assert !InRow(rows[m], v);
    }
    FirstMember(cs);
  }

  /** Over rows without any vertex no clique grows. */
  lemma {:induction false} NewCliquesEmpty(rows: seq<seq<Word>>, bank: seq<seq<Word>>, size: nat)
    requires Closed(rows) && SeedBank(rows, bank, size)
    requires forall r: nat, q: nat :: r < |rows| ==> !InRow(rows[r], q)
    ensures NewCliques(rows, bank, size) == []
  {
    if |bank| > 0 {
      var last := |bank| - 1;
      assert SeedBank(rows, bank[..last], size);
      NewCliquesEmpty(rows, bank[..last], size);
      ExtensionsEmpty(rows, bank[last]);
    }
  }

  /** A round over rows without any vertex grows nothing. */
  lemma AdvanceNoEdges(matrix: seq<Word>, chunkSize: nat, cliques: seq<Word>, degrees: seq<nat>)
    requires RoundReady(matrix, chunkSize, cliques, degrees)
    requires forall r: nat, q: nat :: r < |Rows(matrix, chunkSize)| ==> !InRow(Rows(matrix, chunkSize)[r], q)
    ensures Advance(matrix, chunkSize, cliques, degrees).1 == []
  {
    var indices := IndicesSmallerThan(degrees, CliqueSize(cliques, chunkSize));
    IndicesFit(degrees, CliqueSize(cliques, chunkSize), chunkSize);
    var pruned := Pruned(matrix, chunkSize, indices);
    var rows, bank := Rows(pruned, chunkSize), Rows(cliques, chunkSize);
    PruneKeepsSeeds(matrix, chunkSize, indices, bank);
    PrunedEmpty(matrix, chunkSize, indices);
    NewCliquesEmpty(rows, bank, chunkSize);
    assert Advance(matrix, chunkSize, cliques, degrees).1 == Flatten(NewCliques(rows, bank, chunkSize));
  }

  /** Pruning rows without any vertex leaves rows without any vertex. */
  lemma PrunedEmpty(m: seq<Word>, size: nat, indices: seq<nat>)
    requires size > 0 && Fits(indices, size)
    requires forall r: nat, q: nat :: r < |Rows(m, size)| ==> !InRow(Rows(m, size)[r], q)
    ensures forall r: nat, q: nat :: r < |Rows(Pruned(m, size, indices), size)| ==>
              !InRow(Rows(Pruned(m, size, indices), size)[r], q)
  {
    PrunedSpec(m, size, indices);
    var rows := Rows(m, size);
    var rows' := Rows(Pruned(m, size, indices), size);
    forall r: nat, q: nat | r < |rows'|
      ensures !InRow(rows'[r], q)
    {
      var listed := q in indices;
      assert InRow(rows'[r], q) <==> InRow(rows[r], q) && !listed;
    }
  }

  /** Rounds over rows without any vertex stop at once with nothing more pushed. */
  lemma RoundsNoEdges(matrix: seq<Word>, chunkSize: nat, cliques: seq<Word>, degrees: seq<nat>, prevRank: nat,
                      pushed: seq<nat>)
    requires RoundReady(matrix, chunkSize, cliques, degrees)
    requires forall r: nat, q: nat :: r < |Rows(matrix, chunkSize)| ==> !InRow(Rows(matrix, chunkSize)[r], q)
    ensures Rounds(matrix, chunkSize, cliques, degrees, prevRank, pushed) == Ok(pushed)
  {
    AdvanceNoEdges(matrix, chunkSize, cliques, degrees);
    RoundsDone(matrix, chunkSize, cliques, degrees, prevRank, pushed, Advance(matrix, chunkSize, cliques, degrees).1);
  }

  /** The packed rows of a graph without edges hold no vertex. */
  lemma AdjacencyNoEdges(adjacencyMatrix: seq<seq<nat>>)
    requires WellFormed(adjacencyMatrix)
    requires forall i :: 0 <= i < |adjacencyMatrix| ==> adjacencyMatrix[i] == []
    ensures forall r: nat, q: nat :: r < |Rows(AdjacencyRows(adjacencyMatrix), ChunkSize(|adjacencyMatrix|))| ==>
              !InRow(Rows(AdjacencyRows(adjacencyMatrix), ChunkSize(|adjacencyMatrix|))[r], q)
  {
    WellFormedFits(adjacencyMatrix);
    AdjacencyRowsSpec(adjacencyMatrix);
    var rows := Rows(AdjacencyRows(adjacencyMatrix), ChunkSize(|adjacencyMatrix|));
    forall r: nat, q: nat | r < |rows|
      ensures !InRow(rows[r], q)
    {
      assert q !in adjacencyMatrix[r];
    }
  }

  /** A graph with vertices but no edges grows no clique in the first round, so `betti`
      returns an empty list: nothing is pushed before the first growth. */
  lemma BettiNoEdges(adjacencyMatrix: seq<seq<nat>>)
    requires WellFormed(adjacencyMatrix) && |adjacencyMatrix| > 0
    requires forall i :: 0 <= i < |adjacencyMatrix| ==> adjacencyMatrix[i] == []
    ensures BettiSpec(adjacencyMatrix) == Ok([])
  {
    var n := |adjacencyMatrix|;
    var matrix, cliques := AdjacencyRows(adjacencyMatrix), SingletonRows(n);
    SingletonRowsSpec(n);
    BettiStart(adjacencyMatrix, matrix, cliques);
    AdjacencyNoEdges(adjacencyMatrix);
    RoundsNoEdges(matrix, ChunkSize(n), cliques, Degrees(adjacencyMatrix), 0, []);
  }

  /** Partway through `betti`: the state is ready for a round, and the rounds still to come
      from it, after the numbers pushed so far, end with `outcome`. */
  ghost predicate Pending(outcome: Result<seq<nat>>, pushed: seq<nat>, matrix: seq<Word>, chunkSize: nat,
                          cliques: seq<Word>, degrees: seq<nat>, prevRank: nat)
  {
    && RoundReady(matrix, chunkSize, cliques, degrees)
    && outcome == Rounds(matrix, chunkSize, cliques, degrees, prevRank, pushed)
  }

  /** Before the first round nothing is pushed and the state is the one
      `read_adjacency_matrix` builds. */
  lemma PendingStart(adjacencyMatrix: seq<seq<nat>>, matrix: seq<Word>, cliques: seq<Word>)
    requires WellFormed(adjacencyMatrix)
    requires matrix == AdjacencyRows(adjacencyMatrix) && cliques == SingletonRows(|adjacencyMatrix|)
    requires ChunkSize(|adjacencyMatrix|) <= |cliques|
    ensures Pending(BettiSpec(adjacencyMatrix), [], matrix, ChunkSize(|adjacencyMatrix|), cliques, Degrees(adjacencyMatrix), 0)
  {
    BettiStart(adjacencyMatrix, matrix, cliques);
  }

  /** One round from a pending state: it ends with the numbers pushed so far when no
      clique grows, with the boundary rank's error or the underflow when those occur, and
      otherwise moves to the pruned matrix and the new cliques with one more number pushed. */
  lemma PendingRound(outcome: Result<seq<nat>>, pushed: seq<nat>, matrix: seq<Word>, chunkSize: nat,
                     cliques: seq<Word>, degrees: seq<nat>, prevRank: nat)
    requires Pending(outcome, pushed, matrix, chunkSize, cliques, degrees, prevRank)
    ensures var next := Advance(matrix, chunkSize, cliques, degrees);
            var rank := BoundaryRank(next.1, cliques, chunkSize);
            && (|next.1| == 0 ==> outcome == Ok(pushed))
            && (|next.1| > 0 && rank.Err? ==> outcome == Err(rank.error))
            && (|next.1| > 0 && rank.Ok? && |next.1| < prevRank + rank.value ==> outcome == Err(Underflow))
  {
    RoundsUnfold(matrix, chunkSize, cliques, degrees, prevRank, pushed);
  }

  /** The step of `PendingRound` with the new cliques, their rank and the number pushed named. */
  lemma PendingNext(outcome: Result<seq<nat>>, pushed: seq<nat>, matrix: seq<Word>, chunkSize: nat,
                    cliques: seq<Word>, degrees: seq<nat>, prevRank: nat, newCliques: seq<Word>, rank: nat)
    requires Pending(outcome, pushed, matrix, chunkSize, cliques, degrees, prevRank)
    ensures newCliques == Advance(matrix, chunkSize, cliques, degrees).1 && |newCliques| > 0 &&
            BoundaryRank(newCliques, cliques, chunkSize) == Ok(rank) && prevRank + rank <= |newCliques| ==>
              Pending(outcome, pushed + [BettiNumber(|newCliques|, prevRank, rank)],
                      Advance(matrix, chunkSize, cliques, degrees).0, chunkSize, newCliques, degrees, rank)
  {
    RoundsStep(matrix, chunkSize, cliques, degrees, prevRank, pushed, newCliques, rank);
  }

  /** Lines 122-141 of `betti`, once the cliques have grown: take the boundary rank, and
      either stop with the outcome or push one number. */
  method PushRound(newCliques: seq<Word>, cliques: seq<Word>, chunkSize: nat, prevRank: nat, bettiNumbers: seq<nat>,
                   ghost before: seq<Word>, ghost degrees: seq<nat>, ghost outcome: Result<seq<nat>>)
    returns (finished: bool, r: Result<seq<nat>>, rank: nat, value: nat)
    requires Pending(outcome, bettiNumbers, before, chunkSize, cliques, degrees, prevRank)
    requires newCliques == Advance(before, chunkSize, cliques, degrees).1 && |newCliques| > 0
    ensures finished ==> r == outcome
    ensures !finished ==> Pending(outcome, bettiNumbers + [value], Advance(before, chunkSize, cliques, degrees).0,
                                  chunkSize, newCliques, degrees, rank)
  {
    rank, value := 0, 0;
    var boundaryRank := RankOf(newCliques, cliques, chunkSize);
    if boundaryRank.Err? {
      PendingRound(outcome, bettiNumbers, before, chunkSize, cliques, degrees, prevRank);
      return true, Err(boundaryRank.error), rank, value;
    }
    rank := boundaryRank.value;
    if |newCliques| < prevRank + rank {
      PendingRound(outcome, bettiNumbers, before, chunkSize, cliques, degrees, prevRank);
      return true, Err(Underflow), rank, value;
    }
    value := BettiNumber(|newCliques|, prevRank, rank);
    PendingNext(outcome, bettiNumbers, before, chunkSize, cliques, degrees, prevRank, newCliques, rank);
    finished, r := false, Ok(bettiNumbers);
  }

  /** One round of the loop of `betti` (lines 115-141): grow the cliques, and either stop with
      the outcome or push one number and move to the next state. */
  method BettiRound(matrix: array<Word>, chunkSize: nat, cliques: seq<Word>, degrees: seq<nat>, prevRank: nat,
                    bettiNumbers: seq<nat>, ghost outcome: Result<seq<nat>>)
    returns (finished: bool, r: Result<seq<nat>>, newCliques: seq<Word>, rank: nat, value: nat)
    requires Pending(outcome, bettiNumbers, matrix[..], chunkSize, cliques, degrees, prevRank)
    modifies matrix
    ensures finished ==> r == outcome
    ensures !finished ==> Pending(outcome, bettiNumbers + [value], matrix[..], chunkSize, newCliques, degrees, rank)
    ensures !finished ==> |Rows(matrix[..], chunkSize)| == |Rows(old(matrix[..]), chunkSize)|
    ensures !finished ==> CliqueSize(cliques, chunkSize) < CliqueSize(newCliques, chunkSize)
                          <= |Rows(old(matrix[..]), chunkSize)|
  {
    ghost var before := matrix[..];
    newCliques := GrowRound(matrix, chunkSize, cliques, degrees);
    if |newCliques| == 0 {
      assert outcome == Ok(bettiNumbers) by {
        PendingRound(outcome, bettiNumbers, before, chunkSize, cliques, degrees, prevRank);
      }
      return true, Ok(bettiNumbers), newCliques, 0, 0;
    }
    finished, r, rank, value := PushRound(newCliques, cliques, chunkSize, prevRank, bettiNumbers, before, degrees, outcome);
  }

  /** `betti`: read the adjacency list, then run rounds until no clique grows, pushing one
      number per round. */
  method Betti(adjacencyMatrix: seq<seq<nat>>) returns (r: Result<seq<nat>>)
    requires WellFormed(adjacencyMatrix)
    ensures r == BettiSpec(adjacencyMatrix)
  {
    WellFormedFits(adjacencyMatrix);
    var flat, chunkSize, cliques, degrees := ReadAdjacencyMatrix(adjacencyMatrix);
    if |cliques| < chunkSize {
      return Err(NoSeedCliques);
    }
    var matrix := ToVec(flat);
    ghost var outcome := BettiSpec(adjacencyMatrix);
    PendingStart(adjacencyMatrix, matrix[..], cliques);
    var bettiNumbers: seq<nat> := [];
    var prevRank: nat := 0;
    while true
      invariant Pending(outcome, bettiNumbers, matrix[..], chunkSize, cliques, degrees, prevRank)
      decreases |Rows(matrix[..], chunkSize)| - CliqueSize(cliques, chunkSize)
    {
      var finished, result, newCliques, rank, value :=
        BettiRound(matrix, chunkSize, cliques, degrees, prevRank, bettiNumbers, outcome);
      if finished {
        return result;
      }
      bettiNumbers := bettiNumbers + [value];
      prevRank := rank;
      cliques := newCliques;
    }
  }
}
