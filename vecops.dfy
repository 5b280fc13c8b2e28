/** Bit rows: a row is a slice of 64-bit words, and vertex `i` of a row lives in word
    `i / 64` at position `i % 64` (the bit `1 << (63 - i % 64)`), so the most significant
    bit of a word holds its lowest vertex. `InRow` is the set a row stands for and
    `Positions` the ascending list of its vertices; every operation below is stated
    against them. */
module VecOps {
  import opened Words
  import opened Chunks

  /** Vertex `i` belongs to `row`. */
  predicate InRow(row: seq<Word>, i: nat) {
    i / 64 < |row| && Has(row[i / 64], i % 64)
  }

  /** Every vertex listed fits a row of `width` words. */
  predicate Fits(vertices: seq<nat>, width: nat) {
    forall k :: 0 <= k < |vertices| ==> vertices[k] / 64 < width
  }

  /** A row of `n` zero words: the empty vertex set. */
  function ZeroRow(n: nat): (r: seq<Word>)
    ensures |r| == n && forall q: nat :: !InRow(r, q)
  {
    seq(n, k => Zero())
  }

  /** Every element of `ps` raised by `d`. */
  function Shift(ps: seq<nat>, d: nat): (r: seq<nat>)
    ensures |r| == |ps|
    ensures forall k :: 0 <= k < |ps| ==> r[k] == ps[k] + d
  {
    seq(|ps|, k requires 0 <= k < |ps| => ps[k] + d)
  }

  lemma ShiftMember(ps: seq<nat>, d: nat, q: nat)
    ensures q in Shift(ps, d) <==> d <= q && q - d in ps
  {
    var s := Shift(ps, d);
    if q in s {
      var j :| 0 <= j < |s| && s[j] == q;
      assert ps[j] == q - d;
    }
    if d <= q && q - d in ps {
      var j :| 0 <= j < |ps| && ps[j] == q - d;
      assert s[j] == q;
    }
  }

  /** The first element of a strictly increasing list is its least. */
  lemma LeastFirst(s: seq<nat>, x: nat)
    requires StrictlyIncreasing(s) && x in s
    ensures s[0] <= x
  {
    var i :| 0 <= i < |s| && s[i] == x;
    assert i == 0 || s[0] < s[i];
  }

  /** Two strictly increasing lists with the same elements are equal: the sorted,
      duplicate-free list of a set is unique. */
  lemma {:induction false} SortedUnique(s: seq<nat>, t: seq<nat>)
    requires StrictlyIncreasing(s) && StrictlyIncreasing(t)
    requires forall x: nat :: x in s <==> x in t
    ensures s == t
  {
    assert |s| > 0 ==> s[0] in t;
    assert |t| > 0 ==> t[0] in s;
    if |s| > 0 {
      assert s[0] == t[0] by {
        LeastFirst(t, s[0]);
        LeastFirst(s, t[0]);
      }
      forall x: nat
        ensures x in s[1..] <==> x in t[1..]
      {
        if x in s[1..] {
          var j :| 1 <= j < |s| && s[j] == x;
          assert x in t && x != t[0];
        }
        if x in t[1..] {
          var j :| 1 <= j < |t| && t[j] == x;
          assert x in s && x != s[0];
        }
      }
      SortedUnique(s[1..], t[1..]);
    }
  }

  // ----------------------------------------------------------------------------
  // The vertex list of a row: `indexes` and `n_elements`

  /** The vertices of a row in ascending order: word by word, each word's positions
      offset by 64 per preceding word. */
  function Positions(row: seq<Word>): seq<nat> {
    if |row| == 0 then []
    else Positions(row[..|row| - 1]) + Shift(WordPositions(row[|row| - 1]), 64 * (|row| - 1))
  }

  /** `n_elements`: the sum of the words' `count_ones`. */
  function NElements(row: seq<Word>): nat {
    if |row| == 0 then 0 else NElements(row[..|row| - 1]) + CountOnes(row[|row| - 1])
  }

  /** The last word of a row holds exactly the vertices from `64 * (|row| - 1)` on. */
  lemma InRowLast(row: seq<Word>, q: nat)
    requires |row| > 0
    ensures q < 64 * (|row| - 1) ==> (InRow(row, q) <==> InRow(row[..|row| - 1], q))
    ensures 64 * (|row| - 1) <= q ==>
              (InRow(row, q) <==> q - 64 * (|row| - 1) < 64 && Has(row[|row| - 1], q - 64 * (|row| - 1)))
    ensures !InRow(row[..|row| - 1], q) || q < 64 * (|row| - 1)
  {
  }

  lemma WordPositionsBelow(w: Word)
    ensures forall j :: 0 <= j < |WordPositions(w)| ==> WordPositions(w)[j] < 64
  {
    WordPositionsFacts(w);
    var ws := WordPositions(w);
    forall j | 0 <= j < |ws|
      ensures ws[j] < 64
    {
      assert ws[j] in ws;
    }
  }

  /** The vertices listed for the leading words are below those of the last word. */
  lemma {:induction false} PositionsBelow(row: seq<Word>)
    ensures forall i :: 0 <= i < |Positions(row)| ==> Positions(row)[i] < 64 * |row|
  {
    if |row| > 0 {
      var n := |row| - 1;
      PositionsBelow(row[..n]);
      WordPositionsBelow(row[n]);
      var a := Positions(row[..n]);
      var b := Shift(WordPositions(row[n]), 64 * n);
      assert Positions(row) == a + b;
      forall i | 0 <= i < |a + b|
        ensures (a + b)[i] < 64 * |row|
      {
        if i < |a| {
          assert (a + b)[i] == a[i];
        } else {
          assert (a + b)[i] == b[i - |a|];
        }
      }
    }
  }

  /** `indexes` lists the vertices in strictly ascending order. */
  lemma {:induction false} PositionsSorted(row: seq<Word>)
    ensures StrictlyIncreasing(Positions(row))
  {
    if |row| > 0 {
      var n := |row| - 1;
      PositionsSorted(row[..n]);
      PositionsBelow(row[..n]);
      WordPositionsFacts(row[n]);
      var a := Positions(row[..n]);
      var b := Shift(WordPositions(row[n]), 64 * n);
      assert StrictlyIncreasing(b);
      assert Positions(row) == a + b;
      ConcatIncreasing(a, b);
    }
  }

  lemma ConcatIncreasing(a: seq<nat>, b: seq<nat>)
    requires StrictlyIncreasing(a) && StrictlyIncreasing(b)
    requires forall i, j :: 0 <= i < |a| && 0 <= j < |b| ==> a[i] < b[j]
    ensures StrictlyIncreasing(a + b)
  {
    forall i, j | 0 <= i < j < |a + b|
      ensures (a + b)[i] < (a + b)[j]
    {
      if j < |a| {
      } else if i < |a| {
        assert (a + b)[i] == a[i] && (a + b)[j] == b[j - |a|];
      } else {
        assert (a + b)[i] == b[i - |a|] && (a + b)[j] == b[j - |a|];
      }
    }
  }

  /** `indexes` lists exactly the vertices of the row. */
  lemma {:induction false} PositionsMembers(row: seq<Word>)
    ensures forall q: nat :: q in Positions(row) <==> InRow(row, q)
  {
    if |row| > 0 {
      var n := |row| - 1;
      PositionsMembers(row[..n]);
      PositionsBelow(row[..n]);
      WordPositionsFacts(row[n]);
      var a := Positions(row[..n]);
      var ws := WordPositions(row[n]);
      assert Positions(row) == a + Shift(ws, 64 * n);
      forall q: nat
        ensures q in Positions(row) <==> InRow(row, q)
      {
        InRowLast(row, q);
        ShiftMember(ws, 64 * n, q);
        if q in a {
          var i :| 0 <= i < |a| && a[i] == q;
        }
      }
    }
  }

  /** `n_elements` counts the vertices `indexes` lists. */
  lemma {:induction false} PositionsLength(row: seq<Word>)
    ensures |Positions(row)| == NElements(row)
  {
    if |row| > 0 {
      PositionsLength(row[..|row| - 1]);
      WordPositionsFacts(row[|row| - 1]);
    }
  }

  /** `indexes` lists every vertex of the row exactly once, in ascending order, and
      `n_elements` counts them. */
  lemma PositionsFacts(row: seq<Word>)
    ensures StrictlyIncreasing(Positions(row))
    ensures forall q: nat :: q in Positions(row) <==> InRow(row, q)
    ensures |Positions(row)| == NElements(row)
  {
    PositionsSorted(row);
    PositionsMembers(row);
    PositionsLength(row);
  }

  /** Two rows of the same width with the same vertex list are the same row. */
  lemma {:induction false} PositionsDetermine(a: seq<Word>, b: seq<Word>)
    requires |a| == |b| && Positions(a) == Positions(b)
    ensures a == b
  {
    PositionsMembers(a);
    PositionsMembers(b);
    forall k | 0 <= k < |a|
      ensures a[k] == b[k]
    {
      forall p: nat
        ensures Has(a[k], p) <==> Has(b[k], p)
      {
        if p < 64 {
          InRowWord(a, k, p);
          InRowWord(b, k, p);
        }
      }
      WordExt(a[k], b[k]);
    }
  }

  /** Vertex `64 * k + p` is in a row exactly when word `k` has bit `p`. */
  lemma {:induction false} InRowWord(row: seq<Word>, k: nat, p: nat)
    requires k < |row| && p < 64
    ensures InRow(row, 64 * k + p) == Has(row[k], p)
  {
    var q := 64 * k + p;
    assert q / 64 == k && q % 64 == p;
  }

  /** `n_elements` equals the length of `indexes`. */
  lemma NElementsCountsPositions(row: seq<Word>)
    ensures NElements(row) == |Positions(row)|
  {
    PositionsFacts(row);
  }

  /** A row holds at most 64 vertices per word. */
  lemma {:induction false} NElementsBound(row: seq<Word>)
    ensures NElements(row) <= 64 * |row|
  {
    if |row| > 0 {
      NElementsBound(row[..|row| - 1]);
      CountOnesBound(row[|row| - 1]);
    }
  }

  lemma {:induction false} AscendingFromZero(p: nat)
    ensures AscendingFrom(Zero(), p) == []
    decreases WordBits - p
  {
    if p < WordBits {
      AscendingFromZero(p + 1);
    }
  }

  lemma WordPositionsZero()
    ensures WordPositions(Zero()) == []
  {
    AscendingFromZero(0);
  }

  /** One round of `find_set_bits_positions`: the leading position moves from the word to
      the output list. */
  lemma LeadingStep(positions: seq<nat>, value: Word)
    requires value != Zero()
    ensures positions + WordPositions(value)
         == (positions + [LeadingZeros(value)]) + WordPositions(Xor(value, Bit(LeadingZeros(value))))
    ensures |WordPositions(Xor(value, Bit(LeadingZeros(value))))| < |WordPositions(value)|
  {
    AscendingPop(value);
  }

  /** `find_set_bits_positions`: the set positions of one word, most significant first.
      Each round takes the leading set bit and flips it off (`1 << (63 - index)` is
      `Bit(index)`), so the loop ends after `count_ones` rounds. */
  method FindSetBitsPositions(number: Word) returns (positions: seq<nat>)
    ensures positions == WordPositions(number)
  {
    positions := [];
    var value := number;
    while value != Zero()
      invariant positions + WordPositions(value) == WordPositions(number)
      decreases |WordPositions(value)|
    {
      var index := LeadingZeros(value);
      LeadingStep(positions, value);
      positions := positions + [index];
      value := Xor(value, Bit(index));
    }
    WordPositionsZero();
    assert positions + [] == positions;
  }

  /** One round of `indexes`: the next word's positions, offset, extend the list. */
  lemma IndexesStep(slice: seq<Word>, i: nat)
    requires i < |slice|
    ensures Positions(slice[..i + 1]) == Positions(slice[..i]) + Shift(WordPositions(slice[i]), 64 * i)
  {
    assert slice[..i + 1][..i] == slice[..i];
  }

  /** `indexes`: the vertices of a row, ascending. */
  method Indexes(slice: seq<Word>) returns (positions: seq<nat>)
    ensures positions == Positions(slice)
  {
    positions := [];
    var offset := 0;
    var i := 0;
    while i < |slice|
      invariant 0 <= i <= |slice|
      invariant offset == 64 * i
      invariant positions == Positions(slice[..i])
    {
      var bytePositions := FindSetBitsPositions(slice[i]);
      IndexesStep(slice, i);
      positions := positions + Shift(bytePositions, offset);
      offset := offset + 64;
      i := i + 1;
    }
    assert slice[..i] == slice;
  }

  // ----------------------------------------------------------------------------
  // Queries

  lemma NullWords(slice: seq<Word>)
    ensures (forall k :: 0 <= k < |slice| ==> slice[k] == Zero()) <==> forall q: nat :: !InRow(slice, q)
  {
    if forall q: nat :: !InRow(slice, q) {
      forall k | 0 <= k < |slice|
        ensures slice[k] == Zero()
      {
        forall p: nat
          ensures !Has(slice[k], p)
        {
          if p < 64 {
            assert !InRow(slice, 64 * k + p);
          }
        }
        ZeroIff(slice[k]);
      }
    }
  }

  /** `is_null`: the row holds no vertex. */
  function IsNull(slice: seq<Word>): (r: bool)
    ensures r <==> forall q: nat :: !InRow(slice, q)
  {
    NullWords(slice);
    forall k | 0 <= k < |slice| :: slice[k] == Zero()
  }

  /** `contains_all`: over the words both slices have, every vertex of `slice2` is a vertex
      of `slice1`. */
  function ContainsAll(slice1: seq<Word>, slice2: seq<Word>): (r: bool)
    ensures r <==> forall q: nat :: q / 64 < |slice1| && InRow(slice2, q) ==> InRow(slice1, q)
  {
    ContainsAllWords(slice1, slice2);
    forall k | 0 <= k < |slice1| && k < |slice2| :: And(slice1[k], slice2[k]) == slice2[k]
  }

  lemma ContainsAllWords(slice1: seq<Word>, slice2: seq<Word>)
    ensures (forall k :: 0 <= k < |slice1| && k < |slice2| ==> And(slice1[k], slice2[k]) == slice2[k])
        <==> forall q: nat :: q / 64 < |slice1| && InRow(slice2, q) ==> InRow(slice1, q)
  {
    if forall q: nat :: q / 64 < |slice1| && InRow(slice2, q) ==> InRow(slice1, q) {
      forall k | 0 <= k < |slice1| && k < |slice2|
        ensures And(slice1[k], slice2[k]) == slice2[k]
      {
        forall p: nat
          ensures Has(slice2[k], p) ==> Has(slice1[k], p)
        {
          if p < 64 {
            assert InRow(slice2, 64 * k + p) ==> InRow(slice1, 64 * k + p);
          }
        }
        AndAbsorbs(slice1[k], slice2[k]);
      }
    }
    if forall k :: 0 <= k < |slice1| && k < |slice2| ==> And(slice1[k], slice2[k]) == slice2[k] {
      forall q: nat | q / 64 < |slice1| && InRow(slice2, q)
        ensures InRow(slice1, q)
      {
        AndAbsorbs(slice1[q / 64], slice2[q / 64]);
      }
    }
  }

  /** A row contains itself. */
  lemma ContainsAllReflexive(slice: seq<Word>)
    ensures ContainsAll(slice, slice)
  {
  }

  // ----------------------------------------------------------------------------
  // Clearing and setting vertices in place: `clear_bits`, `insert`, `bitvec_from_slice`

  /** Vertex `i` cleared: `row[i / 64] &= !(1 << (63 - i % 64))`. */
  function ClearBit(row: seq<Word>, i: nat): (r: seq<Word>)
    requires i / 64 < |row|
    ensures |r| == |row|
  {
    row[i / 64 := And(row[i / 64], Not(Bit(i % 64)))]
  }

  lemma ClearBitSpec(row: seq<Word>, i: nat)
    requires i / 64 < |row|
    ensures forall q: nat :: InRow(ClearBit(row, i), q) <==> InRow(row, q) && q != i
  {
    forall q: nat
      ensures InRow(ClearBit(row, i), q) <==> InRow(row, q) && q != i
    {
      if q / 64 == i / 64 && q % 64 == i % 64 {
        assert q == 64 * (q / 64) + q % 64;
        assert i == 64 * (i / 64) + i % 64;
      }
    }
  }

  /** The listed vertices cleared one after the other. */
  function Cleared(row: seq<Word>, indices: seq<nat>): (r: seq<Word>)
    requires Fits(indices, |row|)
    ensures |r| == |row|
  {
    if |indices| == 0 then row
    else ClearBit(Cleared(row, indices[..|indices| - 1]), indices[|indices| - 1])
  }

  /** `clear_bits` leaves every listed vertex out of the row and every other vertex as it
      was. */
  lemma {:induction false} ClearedSpec(row: seq<Word>, indices: seq<nat>)
    requires Fits(indices, |row|)
    ensures forall q: nat :: InRow(Cleared(row, indices), q) <==> InRow(row, q) && q !in indices
  {
    if |indices| > 0 {
      var last := |indices| - 1;
      ClearedSpec(row, indices[..last]);
      ClearBitSpec(Cleared(row, indices[..last]), indices[last]);
      assert indices == indices[..last] + [indices[last]];
    }
  }

  /** `clear_bits` on the slice `slice[lo..hi]`. */
  method ClearBits(slice: array<Word>, lo: nat, hi: nat, indices: seq<nat>)
    requires lo <= hi <= slice.Length && Fits(indices, hi - lo)
    modifies slice
    ensures slice[lo..hi] == Cleared(old(slice[lo..hi]), indices)
    ensures slice[..lo] == old(slice[..lo]) && slice[hi..] == old(slice[hi..])
  {
    ghost var orig := slice[lo..hi];
    var j := 0;
    while j < |indices|
      invariant 0 <= j <= |indices|
      invariant slice[lo..hi] == Cleared(orig, indices[..j])
      invariant slice[..lo] == old(slice[..lo]) && slice[hi..] == old(slice[hi..])
    {
      var index := indices[j];
      var blockIdx := index / 64;
      var bitPosition := index % 64;
      slice[lo + blockIdx] := And(slice[lo + blockIdx], Not(Bit(bitPosition)));
      assert indices[..j + 1][..j] == indices[..j];
      j := j + 1;
    }
    assert indices[..j] == indices;
  }

  /** Vertex `v` set: `row[v / 64] |= 1 << (63 - v % 64)`. */
  function SetBit(row: seq<Word>, v: nat): (r: seq<Word>)
    requires v / 64 < |row|
    ensures |r| == |row|
  {
    row[v / 64 := Or(row[v / 64], Bit(v % 64))]
  }

  /** `insert` adds exactly vertex `v`. */
  lemma SetBitSpec(row: seq<Word>, v: nat)
    requires v / 64 < |row|
    ensures forall q: nat :: InRow(SetBit(row, v), q) <==> InRow(row, q) || q == v
  {
    forall q: nat
      ensures InRow(SetBit(row, v), q) <==> InRow(row, q) || q == v
    {
      if q / 64 == v / 64 && q % 64 == v % 64 {
        assert q == 64 * (q / 64) + q % 64;
        assert v == 64 * (v / 64) + v % 64;
      }
    }
  }

  lemma SetBitMembers(row: seq<Word>, v: nat)
    requires v / 64 < |row|
    ensures forall x: nat :: x in Positions(SetBit(row, v)) <==> x in Positions(row) + [v]
  {
    PositionsMembers(row);
    PositionsMembers(SetBit(row, v));
    SetBitSpec(row, v);
    forall x: nat
      ensures x in Positions(SetBit(row, v)) <==> x in Positions(row) + [v]
    {
      assert x in Positions(row) + [v] <==> x in Positions(row) || x == v;
    }
  }

  lemma AppendAbove(row: seq<Word>, v: nat)
    requires forall q: nat :: InRow(row, q) ==> q < v
    ensures StrictlyIncreasing(Positions(row) + [v])
  {
    var before := Positions(row);
    PositionsSorted(row);
    PositionsMembers(row);
    forall i | 0 <= i < |before|
      ensures before[i] < v
    {
      assert before[i] in before;
    }
    ConcatIncreasing(before, [v]);
  }

  /** Adding a vertex above every vertex of the row appends it to the vertex list. */
  lemma SetBitAbove(row: seq<Word>, v: nat)
    requires v / 64 < |row|
    requires forall q: nat :: InRow(row, q) ==> q < v
    ensures Positions(SetBit(row, v)) == Positions(row) + [v]
  {
    SetBitMembers(row, v);
    AppendAbove(row, v);
    PositionsSorted(SetBit(row, v));
    SortedUnique(Positions(SetBit(row, v)), Positions(row) + [v]);
  }

  /** `insert`: sets vertex `value` in the slice and returns a copy of the updated slice. */
  method Insert(slice: array<Word>, value: nat) returns (copy: seq<Word>)
    requires value / 64 < slice.Length
    modifies slice
    ensures slice[..] == SetBit(old(slice[..]), value)
    ensures copy == slice[..]
  {
    var blockIdx := value / 64;
    var bitPosition := value % 64;
    slice[blockIdx] := Or(slice[blockIdx], Bit(bitPosition));
    copy := slice[..];
  }

  /** The row `bitvec_from_slice` builds: `n_chunks` zero words with each listed vertex set
      in turn. */
  function FromIndices(slice: seq<nat>, nChunks: nat): (r: seq<Word>)
    requires Fits(slice, nChunks)
    ensures |r| == nChunks
  {
    if |slice| == 0 then ZeroRow(nChunks)
    else SetBit(FromIndices(slice[..|slice| - 1], nChunks), slice[|slice| - 1])
  }

  /** The row built from a list holds exactly the listed vertices. */
  lemma {:induction false} FromIndicesSpec(slice: seq<nat>, nChunks: nat)
    requires Fits(slice, nChunks)
    ensures forall q: nat :: InRow(FromIndices(slice, nChunks), q) <==> q in slice
  {
    if |slice| > 0 {
      var last := |slice| - 1;
      FromIndicesSpec(slice[..last], nChunks);
      SetBitSpec(FromIndices(slice[..last], nChunks), slice[last]);
      assert slice == slice[..last] + [slice[last]];
    }
  }

  /** Round trip: `indexes(bitvec_from_slice(s, n))` is `s` sorted without duplicates, for
      every `s` whose vertices fit `n` words. */
  lemma IndexesRoundTrip(s: seq<nat>, nChunks: nat, sorted: seq<nat>)
    requires Fits(s, nChunks)
    requires StrictlyIncreasing(sorted) && forall x: nat :: x in sorted <==> x in s
    ensures Positions(FromIndices(s, nChunks)) == sorted
  {
    FromIndicesSpec(s, nChunks);
    PositionsFacts(FromIndices(s, nChunks));
    SortedUnique(Positions(FromIndices(s, nChunks)), sorted);
  }

  /** `bitvec_from_slice`: the row of `n_chunks` words holding the listed vertices. */
  method BitvecFromSlice(slice: seq<nat>, nChunks: nat) returns (vertices: seq<Word>)
    requires Fits(slice, nChunks)
    ensures vertices == FromIndices(slice, nChunks)
  {
    var v := new Word[nChunks](k => Zero());
    assert v[..] == ZeroRow(nChunks);
    var j := 0;
    while j < |slice|
      invariant 0 <= j <= |slice|
      invariant v[..] == FromIndices(slice[..j], nChunks)
    {
      var value := slice[j];
      var blockIdx := value / 64;
      var bitPosition := value % 64;
      v[blockIdx] := Or(v[blockIdx], Bit(bitPosition));
      assert slice[..j + 1][..j] == slice[..j];
      j := j + 1;
    }
    assert slice[..j] == slice;
    vertices := v[..];
  }

  // ----------------------------------------------------------------------------
  // Intersection: `and_slices`, `batch_intersect`

  /** Word-wise `&` over the words both rows have; words of `a` past the end of `b` stay. */
  function AndRows(a: seq<Word>, b: seq<Word>): (r: seq<Word>)
    ensures |r| == |a|
  {
    seq(|a|, k requires 0 <= k < |a| => if k < |b| then And(a[k], b[k]) else a[k])
  }

  /** `and_slices` intersects the rows over the words they share. */
  lemma AndRowsSpec(a: seq<Word>, b: seq<Word>)
    ensures forall q: nat :: InRow(AndRows(a, b), q) <==> InRow(a, q) && (q / 64 < |b| ==> InRow(b, q))
  {
  }

  /** `and_slices`. */
  method AndSlices(slice1: array<Word>, slice2: seq<Word>)
    modifies slice1
    ensures slice1[..] == AndRows(old(slice1[..]), slice2)
  {
    var k := 0;
    while k < slice1.Length && k < |slice2|
      invariant 0 <= k <= slice1.Length && k <= |slice2|
      invariant forall t :: 0 <= t < slice1.Length ==>
                  slice1[t] == if t < k then And(old(slice1[t]), slice2[t]) else old(slice1[t])
    {
      slice1[k] := And(slice1[k], slice2[k]);
      k := k + 1;
    }
    assert forall t :: 0 <= t < slice1.Length ==> slice1[..][t] == AndRows(old(slice1[..]), slice2)[t];
  }

  /** Every listed index names a row. */
  predicate InRange(indexes: seq<nat>, n: nat) {
    forall k :: 0 <= k < |indexes| ==> indexes[k] < n
  }

  /** The word-wise `&` of the rows at the listed indexes, in list order. */
  function Meet(rows: seq<seq<Word>>, indexes: seq<nat>): (r: seq<Word>)
    requires |indexes| > 0 && InRange(indexes, |rows|)
    ensures |r| == |rows[indexes[0]]|
  {
    if |indexes| == 1 then rows[indexes[0]]
    else AndRows(Meet(rows, indexes[..|indexes| - 1]), rows[indexes[|indexes| - 1]])
  }

  /** Over rows of one width, `batch_intersect` yields exactly the vertices common to all
      the listed rows. */
  lemma {:induction false} MeetSpec(rows: seq<seq<Word>>, indexes: seq<nat>, size: nat)
    requires |indexes| > 0 && InRange(indexes, |rows|) && Uniform(rows, size)
    ensures |Meet(rows, indexes)| == size
    ensures forall q: nat :: InRow(Meet(rows, indexes), q) <==>
              forall k :: 0 <= k < |indexes| ==> InRow(rows[indexes[k]], q)
  {
    if |indexes| > 1 {
      var last := |indexes| - 1;
      var front := indexes[..last];
      MeetSpec(rows, front, size);
      AndRowsSpec(Meet(rows, front), rows[indexes[last]]);
      forall q: nat
        ensures InRow(Meet(rows, indexes), q) <==> forall k :: 0 <= k < |indexes| ==> InRow(rows[indexes[k]], q)
      {
        if forall k :: 0 <= k < |indexes| ==> InRow(rows[indexes[k]], q) {
          assert forall k :: 0 <= k < |front| ==> InRow(rows[front[k]], q);
        }
        if InRow(Meet(rows, indexes), q) {
          forall k | 0 <= k < |indexes|
            ensures InRow(rows[indexes[k]], q)
          {
            if k < last {
              assert front[k] == indexes[k];
            }
          }
        }
      }
    }
  }

  lemma AndRowsNull(a: seq<Word>, b: seq<Word>)
    requires IsNull(a)
    ensures AndRows(a, b) == a
  {
    NullWords(a);
    forall k | 0 <= k < |a| && k < |b|
      ensures And(a[k], b[k]) == a[k]
    {
      WordExt(And(a[k], b[k]), a[k]);
    }
  }

  /** Once the running intersection is empty, intersecting with further rows keeps it:
      the early return of `batch_intersect` does not change its result. */
  lemma {:induction false} MeetAbsorbs(rows: seq<seq<Word>>, indexes: seq<nat>, j: nat)
    requires 1 <= j <= |indexes| && InRange(indexes, |rows|)
    requires IsNull(Meet(rows, indexes[..j]))
    ensures Meet(rows, indexes) == Meet(rows, indexes[..j])
    decreases |indexes|
  {
    if j == |indexes| {
      assert indexes[..j] == indexes;
    } else {
      var front := indexes[..|indexes| - 1];
      assert front[..j] == indexes[..j];
      MeetAbsorbs(rows, front, j);
      AndRowsNull(Meet(rows, front), rows[indexes[|indexes| - 1]]);
    }
  }

  /** `to_vec()`: a fresh buffer holding the words of `row`. */
  method ToVec(row: seq<Word>) returns (a: array<Word>)
    ensures fresh(a) && a[..] == row
  {
    a := new Word[|row|](i requires 0 <= i < |row| => row[i]);
  }

  /** `batch_intersect`: the running `&` of the listed rows of a flat matrix of
      `chunk_size`-word rows, returning early once it is all zero. */
  method BatchIntersect(matrix: seq<Word>, indexes: seq<nat>, chunkSize: nat) returns (acc: seq<Word>)
    requires chunkSize > 0 && |indexes| > 0 && InRange(indexes, |Rows(matrix, chunkSize)|)
    ensures acc == Meet(Rows(matrix, chunkSize), indexes)
  {
    ghost var rows := Rows(matrix, chunkSize);
    var a := ToVec(RowOf(matrix, chunkSize, indexes[0]));
    assert a[..] == Meet(rows, indexes[..1]) by {
      assert indexes[..1] == [indexes[0]];
    }
    var j := 1;
    while j < |indexes|
      invariant 1 <= j <= |indexes|
      invariant a.Length == chunkSize
      invariant a[..] == Meet(rows, indexes[..j])
    {
      if IsNull(a[..]) {
        MeetAbsorbs(rows, indexes, j);
        return a[..];
      }
      MeetStep(rows, indexes, j);
      AndSlices(a, RowOf(matrix, chunkSize, indexes[j]));
      j := j + 1;
    }
    assert indexes[..j] == indexes;
    acc := a[..];
  }

  lemma MeetStep(rows: seq<seq<Word>>, indexes: seq<nat>, j: nat)
    requires 1 <= j < |indexes| && InRange(indexes, |rows|)
    ensures Meet(rows, indexes[..j + 1]) == AndRows(Meet(rows, indexes[..j]), rows[indexes[j]])
  {
    var front := indexes[..j + 1];
    InRangePrefix(indexes, |rows|, j + 1);
    assert front[..j] == indexes[..j];
  }

  /** A prefix of in-range indexes is in range. */
  lemma InRangePrefix(indexes: seq<nat>, n: nat, j: nat)
    requires InRange(indexes, n) && j <= |indexes|
    ensures InRange(indexes[..j], n)
  {
  }

  // ----------------------------------------------------------------------------
  // Faces: `remove_single_set_bit`, `faces_of`

  /** One copy of `input` per listed position, with that position cleared. */
  function Without(input: Word, ps: seq<nat>): (r: seq<Word>)
    ensures |r| == |ps|
  {
    seq(|ps|, k requires 0 <= k < |ps| => And(input, Not(Bit(ps[k]))))
  }

  lemma {:induction false} DescendingBelowZero(p: nat)
    requires p <= WordBits
    ensures DescendingBelow(Zero(), p) == []
  {
    if p > 0 {
      DescendingBelowZero(p - 1);
    }
  }

  /** One round of `remove_single_set_bit`: the lowest set bit of `x` (`1 << bit` is the
      word of position `63 - bit`) is cleared from `input` for the output and from `x` by
      `x & (x - 1)`. */
  lemma TrailingStep(result: seq<Word>, input: Word, x: Word)
    requires x != Zero()
    ensures result + Without(input, DescendingPositions(x))
         == (result + [And(input, Not(Bit(63 - TrailingZeros(x))))])
            + Without(input, DescendingPositions(And(x, Pred(x))))
    ensures |DescendingPositions(And(x, Pred(x)))| < |DescendingPositions(x)|
  {
    DescendingPop(x);
    var p := 63 - TrailingZeros(x);
    var rest := DescendingPositions(And(x, Pred(x)));
    assert Without(input, [p] + rest) == [And(input, Not(Bit(p)))] + Without(input, rest);
  }

  /** `remove_single_set_bit`: one copy of the word per set bit, with that bit cleared,
      lowest-order bit (largest position) first. */
  method RemoveSingleSetBit(input: Word) returns (result: seq<Word>)
    ensures result == Without(input, DescendingPositions(input))
  {
    result := [];
    var x := input;
    while x != Zero()
      invariant result + Without(input, DescendingPositions(x)) == Without(input, DescendingPositions(input))
      decreases |DescendingPositions(x)|
    {
      var bit := TrailingZeros(x);
      var mask := Bit(63 - bit);
      TrailingStep(result, input, x);
      result := result + [And(input, Not(mask))];
      x := And(x, Pred(x));
    }
    DescendingBelowZero(WordBits);
    assert result + [] == result;
  }

  /** Copies of `input` with word `i` replaced by each of `vs` in turn. */
  function Replaced(input: seq<Word>, i: nat, vs: seq<Word>): (r: seq<seq<Word>>)
    requires i < |input|
    ensures |r| == |vs|
  {
    seq(|vs|, k requires 0 <= k < |vs| => input[i := vs[k]])
  }

  /** The faces of the first `n` words, as `faces_of` lists them. */
  function FacesUpTo(input: seq<Word>, n: nat): seq<seq<Word>>
    requires n <= |input|
  {
    if n == 0 then []
    else FacesUpTo(input, n - 1) + Replaced(input, n - 1, Without(input[n - 1], DescendingPositions(input[n - 1])))
  }

  /** The rows one vertex smaller than `input`, in `faces_of` order. */
  function Faces(input: seq<Word>): seq<seq<Word>> {
    FacesUpTo(input, |input|)
  }

  /** The vertex each face leaves out, in the same order. */
  function FaceOrderUpTo(input: seq<Word>, n: nat): seq<nat>
    requires n <= |input|
  {
    if n == 0 then [] else FaceOrderUpTo(input, n - 1) + Shift(DescendingPositions(input[n - 1]), 64 * (n - 1))
  }

  function FaceOrder(input: seq<Word>): seq<nat> {
    FaceOrderUpTo(input, |input|)
  }

  /** `faces_of`. */
  method FacesOf(input: seq<Word>) returns (result: seq<seq<Word>>)
    ensures result == Faces(input)
  {
    result := [];
    var i := 0;
    while i < |input|
      invariant 0 <= i <= |input|
      invariant result == FacesUpTo(input, i)
    {
      var variations := RemoveSingleSetBit(input[i]);
      ghost var before := result;
      var k := 0;
      while k < |variations|
        invariant 0 <= k <= |variations|
        invariant result == before + Replaced(input, i, variations[..k])
      {
        var clone := input[i := variations[k]];
        assert Replaced(input, i, variations[..k + 1]) == Replaced(input, i, variations[..k]) + [clone];
        result := result + [clone];
        k := k + 1;
      }
      assert variations[..k] == variations;
      i := i + 1;
    }
  }

  /** `face` is `input` with exactly vertex `v` taken out. */
  ghost predicate FaceAt(input: seq<Word>, face: seq<Word>, v: nat) {
    |face| == |input| && forall q: nat :: InRow(face, q) <==> InRow(input, q) && q != v
  }

  /** Clearing position `d` of word `i` takes out vertex `64 * i + d`. */
  lemma FaceOfWord(input: seq<Word>, i: nat, d: nat)
    requires i < |input| && d < 64
    ensures FaceAt(input, input[i := And(input[i], Not(Bit(d)))], 64 * i + d)
  {
    var face := input[i := And(input[i], Not(Bit(d)))];
    forall q: nat
      ensures InRow(face, q) <==> InRow(input, q) && q != 64 * i + d
    {
      if q / 64 == i {
        assert q == 64 * i + q % 64;
      } else {
        assert (64 * i + d) / 64 == i;
      }
    }
  }

  lemma DescendingBelow64(w: Word)
    ensures forall k :: 0 <= k < |DescendingPositions(w)| ==>
              DescendingPositions(w)[k] < 64 && Has(w, DescendingPositions(w)[k])
  {
    DescendingPositionsFacts(w);
    var ds := DescendingPositions(w);
    forall k | 0 <= k < |ds|
      ensures ds[k] < 64 && Has(w, ds[k])
    {
      assert ds[k] in ds;
    }
  }

  /** Face `j` of the first `n` words is `input` without vertex `FaceOrderUpTo(input, n)[j]`. */
  lemma {:induction false} FacesUpToSpec(input: seq<Word>, n: nat)
    requires n <= |input|
    ensures |FacesUpTo(input, n)| == |FaceOrderUpTo(input, n)|
    ensures forall j :: 0 <= j < |FacesUpTo(input, n)| ==>
              FaceAt(input, FacesUpTo(input, n)[j], FaceOrderUpTo(input, n)[j])
  {
    if n > 0 {
      var i := n - 1;
      FacesUpToSpec(input, i);
      var prev := FacesUpTo(input, i);
      var prevOrder := FaceOrderUpTo(input, i);
      var ds := DescendingPositions(input[i]);
      var block := Replaced(input, i, Without(input[i], ds));
      var blockOrder := Shift(ds, 64 * i);
      assert FacesUpTo(input, n) == prev + block;
      assert FaceOrderUpTo(input, n) == prevOrder + blockOrder;
      DescendingBelow64(input[i]);
      forall j | 0 <= j < |prev + block|
        ensures FaceAt(input, (prev + block)[j], (prevOrder + blockOrder)[j])
      {
        if j < |prev| {
          assert (prev + block)[j] == prev[j];
          assert (prevOrder + blockOrder)[j] == prevOrder[j];
        } else {
          var k := j - |prev|;
          assert (prev + block)[j] == block[k];
          assert (prevOrder + blockOrder)[j] == blockOrder[k];
          FaceOfWord(input, i, ds[k]);
        }
      }
    }
  }

  /** The vertices `FaceOrderUpTo` lists lie in the first `n` words. */
  lemma {:induction false} FaceOrderBelow(input: seq<Word>, n: nat)
    requires n <= |input|
    ensures forall j :: 0 <= j < |FaceOrderUpTo(input, n)| ==> FaceOrderUpTo(input, n)[j] < 64 * n
  {
    if n > 0 {
      var i := n - 1;
      FaceOrderBelow(input, i);
      DescendingBelow64(input[i]);
      var a := FaceOrderUpTo(input, i);
      var b := Shift(DescendingPositions(input[i]), 64 * i);
      forall j | 0 <= j < |a + b|
        ensures (a + b)[j] < 64 * n
      {
        if j < |a| {
          assert (a + b)[j] == a[j];
        } else {
          assert (a + b)[j] == b[j - |a|];
        }
      }
    }
  }

  /** `faces_of` takes out every vertex of the row once: the vertices it takes out are the
      row's vertices, and there are `n_elements` of them. */
  lemma {:induction false} FaceOrderMembers(input: seq<Word>, n: nat)
    requires n <= |input|
    ensures forall q: nat :: q in FaceOrderUpTo(input, n) <==> q < 64 * n && InRow(input, q)
  {
    if n > 0 {
      var i := n - 1;
      FaceOrderMembers(input, i);
      DescendingPositionsFacts(input[i]);
      var a := FaceOrderUpTo(input, i);
      var ds := DescendingPositions(input[i]);
      forall q: nat
        ensures q in a + Shift(ds, 64 * i) <==> q < 64 * n && InRow(input, q)
      {
        ShiftMember(ds, 64 * i, q);
        if 64 * i <= q < 64 * n {
          assert q / 64 == i;
        }
      }
    }
  }

  /** The vertex list of the first `n` words is as long as they have vertices. */
  lemma {:induction false} FaceOrderLength(input: seq<Word>, n: nat)
    requires n <= |input|
    ensures |FaceOrderUpTo(input, n)| == NElements(input[..n])
  {
    if n > 0 {
      var i := n - 1;
      FaceOrderLength(input, i);
      DescendingPositionsFacts(input[i]);
      assert input[..n][..i] == input[..i];
    }
  }

  /** `faces_of` goes word by word: a vertex of an earlier word comes first, and inside a
      word the vertices come from the largest down. */
  lemma {:induction false} FaceOrderOrdered(input: seq<Word>, n: nat)
    requires n <= |input|
    ensures forall j, k :: 0 <= j < k < |FaceOrderUpTo(input, n)| ==>
              FaceOrderUpTo(input, n)[j] / 64 < FaceOrderUpTo(input, n)[k] / 64
              || (FaceOrderUpTo(input, n)[j] / 64 == FaceOrderUpTo(input, n)[k] / 64
                  && FaceOrderUpTo(input, n)[j] > FaceOrderUpTo(input, n)[k])
  {
    if n > 0 {
      var i := n - 1;
      FaceOrderOrdered(input, i);
      FaceOrderBelow(input, i);
      DescendingPositionsFacts(input[i]);
      DescendingBelow64(input[i]);
      var a := FaceOrderUpTo(input, i);
      var b := Shift(DescendingPositions(input[i]), 64 * i);
      forall j, k | 0 <= j < k < |a + b|
        ensures (a + b)[j] / 64 < (a + b)[k] / 64
                || ((a + b)[j] / 64 == (a + b)[k] / 64 && (a + b)[j] > (a + b)[k])
      {
        if k < |a| {
          assert (a + b)[j] == a[j] && (a + b)[k] == a[k];
        } else if j < |a| {
          assert (a + b)[j] == a[j] && (a + b)[k] == b[k - |a|];
          assert (a + b)[k] / 64 == i;
        } else {
          assert (a + b)[j] == b[j - |a|] && (a + b)[k] == b[k - |a|];
        }
      }
    }
  }

  /** `faces_of` yields `n_elements(input)` rows; row `j` is `input` with exactly vertex
      `FaceOrder(input)[j]` taken out; every vertex of `input` is taken out by exactly one
      of them; and they come word by word, largest vertex first inside a word. */
  lemma FacesSpec(input: seq<Word>)
    ensures |Faces(input)| == |FaceOrder(input)| == NElements(input)
    ensures forall j :: 0 <= j < |Faces(input)| ==> FaceAt(input, Faces(input)[j], FaceOrder(input)[j])
    ensures forall q: nat :: q in FaceOrder(input) <==> InRow(input, q)
    ensures forall j, k :: 0 <= j < k < |FaceOrder(input)| ==>
              FaceOrder(input)[j] / 64 < FaceOrder(input)[k] / 64
              || (FaceOrder(input)[j] / 64 == FaceOrder(input)[k] / 64 && FaceOrder(input)[j] > FaceOrder(input)[k])
  {
    FacesUpToSpec(input, |input|);
    FaceOrderMembers(input, |input|);
    FaceOrderLength(input, |input|);
    FaceOrderOrdered(input, |input|);
    assert input[..|input|] == input;
  }
}
