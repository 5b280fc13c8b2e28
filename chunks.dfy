/** Flat word buffers read as consecutive rows of a fixed size, as `chunks_exact` and
    `chunks_exact_mut` read them: every full chunk is a row and a shorter remainder is
    ignored. `Flatten` is the opposite direction, the concatenation that `extend` builds. */
module Chunks {

  /** The rows of `buf`, `size` elements each, in order; a remainder shorter than `size` is
      not a row. */
  function Rows<T>(buf: seq<T>, size: nat): seq<seq<T>>
    requires size > 0
    decreases |buf|
  {
    if |buf| < size then [] else [buf[..size]] + Rows(buf[size..], size)
  }

  /** The concatenation of the rows. */
  function Flatten<T>(rows: seq<seq<T>>): seq<T> {
    if |rows| == 0 then [] else rows[0] + Flatten(rows[1..])
  }

  /** Every row has `size` elements. */
  predicate Uniform<T>(rows: seq<seq<T>>, size: nat) {
    forall k :: 0 <= k < |rows| ==> |rows[k]| == size
  }

  lemma {:induction false} FlattenConcat<T>(a: seq<seq<T>>, b: seq<seq<T>>)
    ensures Flatten(a + b) == Flatten(a) + Flatten(b)
  {
    if |a| > 0 {
      assert (a + b)[0] == a[0];
      assert (a + b)[1..] == a[1..] + b;
      FlattenConcat(a[1..], b);
    } else {
      assert a + b == b;
    }
  }

  lemma FlattenOne<T>(x: seq<T>)
    ensures Flatten([x]) == x
  {
    assert [x][1..] == [];
  }

  lemma {:induction false} FlattenLength<T>(rows: seq<seq<T>>, size: nat)
    requires Uniform(rows, size)
    ensures |Flatten(rows)| == |rows| * size
  {
    if |rows| > 0 {
      FlattenLength(rows[1..], size);
    }
  }

  /** Every row `chunks_exact` yields has the chunk size, and the buffer is those rows
      followed by a remainder shorter than one row. */
  lemma {:induction false} RowsSplit<T>(buf: seq<T>, size: nat)
    requires size > 0
    ensures Uniform(Rows(buf, size), size)
    ensures |Flatten(Rows(buf, size))| <= |buf|
    ensures buf == Flatten(Rows(buf, size)) + buf[|Flatten(Rows(buf, size))|..]
    ensures |buf| - |Flatten(Rows(buf, size))| < size
    decreases |buf|
  {
    if |buf| >= size {
      RowsSplit(buf[size..], size);
      assert Rows(buf, size)[1..] == Rows(buf[size..], size);
    }
  }

  /** Reading back a concatenation of full rows, followed by less than one row, gives the
      rows. */
  lemma {:induction false} RowsOfFlatten<T>(rows: seq<seq<T>>, tail: seq<T>, size: nat)
    requires size > 0 && Uniform(rows, size) && |tail| < size
    ensures Rows(Flatten(rows) + tail, size) == rows
  {
    if |rows| > 0 {
      var buf := Flatten(rows) + tail;
      assert buf == rows[0] + (Flatten(rows[1..]) + tail);
      assert buf[..size] == rows[0];
      assert buf[size..] == Flatten(rows[1..]) + tail;
      RowsOfFlatten(rows[1..], tail, size);
    } else {
      assert Flatten(rows) + tail == tail;
    }
  }

  /** Row `k` of uniform rows sits at offset `k * size` of the concatenation, after the
      first `k` rows and before the rest. */
  lemma FlattenSplit<T>(rows: seq<seq<T>>, k: nat, size: nat)
    requires Uniform(rows, size) && k < |rows|
    ensures k * size + size <= |Flatten(rows)|
    ensures Flatten(rows)[..k * size] == Flatten(rows[..k])
    ensures Flatten(rows)[k * size..k * size + size] == rows[k]
    ensures Flatten(rows)[k * size + size..] == Flatten(rows[k + 1..])
  {
    var front, back := Flatten(rows[..k]), Flatten(rows[k + 1..]);
    FlattenAround(rows, k);
    FlattenLength(rows[..k], size);
    ThreeParts(front, rows[k], back);
  }

  /** The concatenation splits at any row boundary. */
  lemma FlattenAt<T>(rows: seq<seq<T>>, k: nat)
    requires k <= |rows|
    ensures Flatten(rows) == Flatten(rows[..k]) + Flatten(rows[k..])
  {
    assert rows == rows[..k] + rows[k..];
    FlattenConcat(rows[..k], rows[k..]);
  }

  /** The concatenation is the rows before `k`, row `k`, and the rows after it. */
  lemma FlattenAround<T>(rows: seq<seq<T>>, k: nat)
    requires k < |rows|
    ensures Flatten(rows) == Flatten(rows[..k]) + (rows[k] + Flatten(rows[k + 1..]))
  {
    FlattenAt(rows, k);
    assert rows[k..][1..] == rows[k + 1..];
  }

  /** The three parts of a concatenation, sliced back out. */
  lemma ThreeParts<T>(a: seq<T>, b: seq<T>, c: seq<T>)
    ensures (a + (b + c))[..|a|] == a && (a + (b + c))[|a|..|a| + |b|] == b && (a + (b + c))[|a| + |b|..] == c
  {
    assert (a + (b + c))[..|a|] == a;
    assert (a + (b + c))[|a|..|a| + |b|] == b;
  }

  /** Replacing row `k` by a row of the same size replaces the matching segment of the
      concatenation, and nothing else. */
  lemma FlattenUpdate<T>(rows: seq<seq<T>>, k: nat, x: seq<T>, size: nat)
    requires Uniform(rows, size) && k < |rows| && |x| == size
    ensures Uniform(rows[k := x], size)
    ensures k * size + size <= |Flatten(rows)|
    ensures Flatten(rows[k := x]) == Flatten(rows)[..k * size] + x + Flatten(rows)[k * size + size..]
  {
    var rows' := rows[k := x];
    FlattenSplit(rows, k, size);
    FlattenReplace(rows, k, x);
  }

  /** Replacing row `k` keeps the rows before and after it, so it keeps their concatenations. */
  lemma FlattenReplace<T>(rows: seq<seq<T>>, k: nat, x: seq<T>)
    requires k < |rows|
    ensures Flatten(rows[k := x]) == Flatten(rows[..k]) + x + Flatten(rows[k + 1..])
  {
    var rows' := rows[k := x];
    FlattenAround(rows', k);
    assert rows'[..k] == rows[..k];
    assert rows'[k + 1..] == rows[k + 1..];
  }

  /** Row `k` of `chunks_exact` is the slice `buf[k * size..k * size + size]`. */
  lemma RowSlice<T>(buf: seq<T>, size: nat, k: nat)
    requires size > 0 && k < |Rows(buf, size)|
    ensures k * size + size <= |buf|
    ensures buf[k * size..k * size + size] == Rows(buf, size)[k]
  {
    var rows := Rows(buf, size);
    RowsSplit(buf, size);
    RowSegment(rows, buf[|Flatten(rows)|..], size, k);
  }

  /** The slice `buf[k * size..(k + 1) * size]`, which is row `k` of `chunks_exact`. */
  function RowOf<T>(buf: seq<T>, size: nat, k: nat): (r: seq<T>)
    requires size > 0 && k < |Rows(buf, size)|
    ensures r == Rows(buf, size)[k] && |r| == size
  {
    RowSlice(buf, size, k);
    buf[k * size..k * size + size]
  }

  /** Row `k` of the row view is the segment at `k * size` of the buffer. */
  lemma {:induction false} RowSegment<T>(rows: seq<seq<T>>, tail: seq<T>, size: nat, k: nat)
    requires Uniform(rows, size) && k < |rows|
    ensures k * size + size <= |Flatten(rows) + tail|
    ensures (Flatten(rows) + tail)[k * size..k * size + size] == rows[k]
  {
    FlattenSplit(rows, k, size);
    var f := Flatten(rows);
    assert (f + tail)[k * size..k * size + size] == f[k * size..k * size + size];
  }

  /** Rewriting row `k`'s segment of the buffer rewrites row `k` of its row view. */
  lemma {:induction false} RowUpdate<T>(rows: seq<seq<T>>, tail: seq<T>, size: nat, k: nat, x: seq<T>)
    requires Uniform(rows, size) && k < |rows| && |x| == size
    ensures k * size + size <= |Flatten(rows) + tail|
    ensures (Flatten(rows) + tail)[..k * size] + x + (Flatten(rows) + tail)[k * size + size..]
         == Flatten(rows[k := x]) + tail
  {
    FlattenUpdate(rows, k, x, size);
    var f := Flatten(rows);
    assert (f + tail)[..k * size] == f[..k * size];
    assert (f + tail)[k * size + size..] == f[k * size + size..] + tail;
  }

  /** Where row `k` of `size` words starts. */
  function RowStart(k: nat, size: nat): (r: nat)
    ensures r == k * size
  {
    k * size
  }

  /** `chunks_exact` yields `|buf| / size` rows. */
  lemma {:induction false} RowCount<T>(buf: seq<T>, size: nat)
    requires size > 0
    ensures |Rows(buf, size)| == |buf| / size
    decreases |buf|
  {
    if |buf| >= size {
      RowCount(buf[size..], size);
      DivStep(|buf|, size);
    }
  }

  lemma DivStep(a: nat, b: nat)
    requires 0 < b <= a
    ensures a / b == (a - b) / b + 1
  {
    var q, m := (a - b) / b, (a - b) % b;
    assert a - b == q * b + m;
    assert a == (q + 1) * b + m;
    DivUnique(a, b, q + 1, m);
  }

  /** The quotient is the only multiple count that leaves a remainder below the divisor. */
  lemma DivUnique(a: nat, b: nat, q: nat, m: nat)
    requires 0 < b && a == q * b + m && m < b
    ensures a / b == q
  {
    var q', m' := a / b, a % b;
    assert a == q' * b + m' && m' < b;
    MulGap(q', q, b);
    MulGap(q, q', b);
  }

  /** A larger multiple count is at least one divisor further on. */
  lemma MulGap(x: nat, y: nat, b: nat)
    ensures x > y ==> x * b >= y * b + b
  {
    if x > y {
      var d: nat := x - y - 1;
      assert x * b == y * b + d * b + b;
    }
  }

  /** There are no more rows than elements. */
  lemma {:induction false} RowsFewer<T>(buf: seq<T>, size: nat)
    requires size > 0
    ensures |Rows(buf, size)| <= |buf|
    decreases |buf|
  {
    if |buf| >= size {
      RowsFewer(buf[size..], size);
    }
  }
}
