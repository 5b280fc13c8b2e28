/** A 64-bit unsigned word (`u64`) as the bit rows use it: the 64 bits listed from the most
    significant to the least significant, so that index `p` holds the bit `1 << (63 - p)`,
    which is the bit of vertex position `p`. `Num` gives the unsigned value of a bit list,
    and the word operations the source relies on (`&`, `|`, `^`, `!`, `x - 1`,
    `1 << k`, `leading_zeros`, `trailing_zeros`, `count_ones`) are defined here and proved
    against that value or against the positions they set. */
module Words {

  const WordBits: nat := 64

  type Word = w: seq<bool> | |w| == WordBits witness seq(64, i => false)

  /** The word whose bits are all clear. */
  function Zero(): (r: Word)
    ensures forall i :: 0 <= i < WordBits ==> !r[i]
  {
    seq(64, i => false)
  }

  /** Position `p` of `w` is set; positions from 64 on never are. */
  predicate Has(w: Word, p: nat) {
    p < WordBits && w[p]
  }

  // ----------------------------------------------------------------------------
  // Unsigned value

  function Pow2(k: nat): (r: nat)
    ensures r >= 1
  {
    if k == 0 then 1 else 2 * Pow2(k - 1)
  }

  /** The unsigned value of a bit list, most significant bit first. */
  function Num(s: seq<bool>): nat {
    if |s| == 0 then 0 else 2 * Num(s[..|s| - 1]) + (if s[|s| - 1] then 1 else 0)
  }

  lemma {:induction false} NumBound(s: seq<bool>)
    ensures Num(s) < Pow2(|s|)
  {
    if |s| > 0 {
      NumBound(s[..|s| - 1]);
    }
  }

  /** The value is zero exactly when no bit is set. */
  lemma {:induction false} NumZero(s: seq<bool>)
    ensures Num(s) == 0 <==> forall i :: 0 <= i < |s| ==> !s[i]
  {
    if |s| > 0 {
      var t := s[..|s| - 1];
      NumZero(t);
      assert forall i :: 0 <= i < |t| ==> t[i] == s[i];
    }
  }

  /** A list whose only set bit is at index `p` has the value `2^(|s| - 1 - p)`. */
  lemma {:induction false} NumSingle(s: seq<bool>, p: nat)
    requires p < |s| && s[p]
    requires forall i :: 0 <= i < |s| && i != p ==> !s[i]
    ensures Num(s) == Pow2(|s| - 1 - p)
  {
    var t := s[..|s| - 1];
    assert forall i :: 0 <= i < |t| ==> t[i] == s[i];
    if p == |s| - 1 {
      NumZero(t);
    } else {
      NumSingle(t, p);
    }
  }

  // ----------------------------------------------------------------------------
  // Word operations

  function And(a: Word, b: Word): (r: Word)
    ensures forall i :: 0 <= i < WordBits ==> r[i] == (a[i] && b[i])
  {
    seq(64, i requires 0 <= i < 64 => a[i] && b[i])
  }

  function Or(a: Word, b: Word): (r: Word)
    ensures forall i :: 0 <= i < WordBits ==> r[i] == (a[i] || b[i])
  {
    seq(64, i requires 0 <= i < 64 => a[i] || b[i])
  }

  function Xor(a: Word, b: Word): (r: Word)
    ensures forall i :: 0 <= i < WordBits ==> r[i] == (a[i] != b[i])
  {
    seq(64, i requires 0 <= i < 64 => a[i] != b[i])
  }

  function Not(a: Word): (r: Word)
    ensures forall i :: 0 <= i < WordBits ==> r[i] == !a[i]
  {
    seq(64, i requires 0 <= i < 64 => !a[i])
  }

  /** `1 << (63 - p)` for a position `p < 64`: the word whose only set position is `p`. */
  function Bit(p: nat): (r: Word)
    ensures forall i :: 0 <= i < WordBits ==> r[i] == (i == p)
  {
    seq(64, i => i == p)
  }

  /** `Bit(p)` is the number `2^(63 - p)`, that is `1 << (63 - p)`; so `1 << k` is
      `Bit(63 - k)`. */
  lemma BitValue(p: nat)
    requires p < WordBits
    ensures Num(Bit(p)) == Pow2(63 - p)
  {
    NumSingle(Bit(p), p);
  }

  /** `x - 1` on a bit list, wrapping to all ones below zero: the trailing clear bits
      become set and the lowest set bit is cleared. */
  function Dec(s: seq<bool>): (r: seq<bool>)
    ensures |r| == |s|
  {
    if |s| == 0 then []
    else if s[|s| - 1] then s[..|s| - 1] + [false]
    else Dec(s[..|s| - 1]) + [true]
  }

  /** `Dec` is subtraction of one, wrapping around at zero. */
  lemma {:induction false} DecValue(s: seq<bool>)
    ensures Num(s) > 0 ==> Num(Dec(s)) == Num(s) - 1
    ensures Num(s) == 0 ==> Num(Dec(s)) == Pow2(|s|) - 1
  {
    if |s| > 0 {
      var t := s[..|s| - 1];
      var d := Dec(s);
      assert d[..|d| - 1] == (if s[|s| - 1] then t else Dec(t));
      DecValue(t);
    }
  }

  /** When the lowest set bit of `s` is at index `l`, `Dec(s)` keeps every bit before `l`,
      clears the bit at `l` and sets every bit after it. */
  lemma {:induction false} DecShape(s: seq<bool>, l: nat)
    requires l < |s| && s[l]
    requires forall i :: l < i < |s| ==> !s[i]
    ensures forall i :: 0 <= i < |s| ==> Dec(s)[i] == (if i < l then s[i] else i > l)
  {
    var t := s[..|s| - 1];
    if l < |s| - 1 {
      DecShape(t, l);
    }
  }

  /** The word `x - 1`. */
  function Pred(x: Word): (r: Word)
  {
    Dec(x)
  }

  /** `x & (x - 1)` clears the lowest set bit, that is the largest set position. */
  lemma ClearLowest(x: Word, p: nat)
    requires Has(x, p)
    requires forall q: nat :: p < q ==> !Has(x, q)
    ensures And(x, Pred(x)) == And(x, Not(Bit(p)))
  {
    forall i | p < i < |x|
      ensures !x[i]
    {
      assert !Has(x, i);
    }
    DecShape(x, p);
  }

  // ----------------------------------------------------------------------------
  // Position facts about the operations

  /** `x & y == y` exactly when every position of `y` is a position of `x`. */
  lemma AndAbsorbs(x: Word, y: Word)
    ensures And(x, y) == y <==> forall p: nat :: Has(y, p) ==> Has(x, p)
  {
    if forall p: nat :: Has(y, p) ==> Has(x, p) {
      forall i | 0 <= i < WordBits
        ensures And(x, y)[i] == y[i]
      {
        assert Has(y, i) ==> Has(x, i);
      }
    }
    if And(x, y) == y {
      forall p: nat | Has(y, p)
        ensures Has(x, p)
      {
        assert And(x, y)[p] == y[p];
      }
    }
  }

  lemma ZeroIff(w: Word)
    ensures w == Zero() <==> forall q: nat :: !Has(w, q)
  {
    if forall q: nat :: !Has(w, q) {
      assert forall i :: 0 <= i < WordBits ==> w[i] == Zero()[i] by {
        forall i | 0 <= i < WordBits
          ensures w[i] == Zero()[i]
        {
          assert !Has(w, i);
        }
      }
    }
  }

  /** `(w & (1 << (63 - b))) != 0` tests position `b`. */
  lemma AndBitNonZero(w: Word, b: nat)
    requires b < WordBits
    ensures And(w, Bit(b)) != Zero() <==> Has(w, b)
  {
    var m := And(w, Bit(b));
    if Has(w, b) {
      assert m[b] != Zero()[b];
    } else {
      forall i | 0 <= i < WordBits
        ensures m[i] == Zero()[i]
      {
      }
    }
  }

  /** Two words with the same set positions are the same word. */
  lemma WordExt(x: Word, y: Word)
    requires forall q: nat :: Has(x, q) <==> Has(y, q)
    ensures x == y
  {
    forall i | 0 <= i < WordBits
      ensures x[i] == y[i]
    {
      assert Has(x, i) <==> Has(y, i);
    }
  }

  /** A word is zero exactly when its unsigned value is zero. */
  lemma ZeroValue(w: Word)
    ensures w == Zero() <==> Num(w) == 0
  {
    NumZero(w);
  }

  // ----------------------------------------------------------------------------
  // The word intrinsics the source uses, and position lists

  /** The number of set positions from `p` on. */
  function CountFrom(w: Word, p: nat): nat
    decreases WordBits - p
  {
    if p >= WordBits then 0 else (if w[p] then 1 else 0) + CountFrom(w, p + 1)
  }

  /** `count_ones`. */
  function CountOnes(w: Word): nat {
    CountFrom(w, 0)
  }

  lemma {:induction false} CountFromBound(w: Word, p: nat)
    ensures p <= WordBits ==> CountFrom(w, p) <= WordBits - p
    decreases WordBits - p
  {
    if p < WordBits {
      CountFromBound(w, p + 1);
    }
  }

  /** A word has at most 64 set bits. */
  lemma CountOnesBound(w: Word)
    ensures CountOnes(w) <= WordBits
  {
    CountFromBound(w, 0);
  }

  /** The first set position at or after `p`, or 64 when there is none. */
  function FirstFrom(w: Word, p: nat): (r: nat)
    requires p <= WordBits
    ensures p <= r <= WordBits
    ensures r < WordBits ==> w[r]
    ensures forall q: nat :: p <= q < r ==> !Has(w, q)
    decreases WordBits - p
  {
    if p == WordBits then WordBits else if w[p] then p else FirstFrom(w, p + 1)
  }

  /** `leading_zeros`: the number of clear bits above the most significant set bit, that
      is the smallest set position; 64 for the zero word. */
  function LeadingZeros(w: Word): (r: nat)
    ensures r <= WordBits
    ensures r < WordBits <==> w != Zero()
    ensures r < WordBits ==> Has(w, r)
    ensures forall q: nat :: q < r ==> !Has(w, q)
  {
    ZeroIff(w);
    FirstFrom(w, 0)
  }

  /** The last set position below `p`, or -1 when there is none. */
  function LastBelow(w: Word, p: nat): (r: int)
    requires p <= WordBits
    ensures -1 <= r < p
    ensures r >= 0 ==> w[r]
    ensures forall q: nat :: r < q < p ==> !Has(w, q)
  {
    if p == 0 then -1 else if w[p - 1] then p - 1 else LastBelow(w, p - 1)
  }

  /** `trailing_zeros`: the number of clear bits below the least significant set bit, so
      that `1 << r` is the bit of position `63 - r`, the largest set position; 64 for the
      zero word. */
  function TrailingZeros(w: Word): (r: nat)
    ensures r <= WordBits
    ensures r < WordBits <==> w != Zero()
    ensures r < WordBits ==> Has(w, 63 - r) && forall q: nat :: 63 - r < q ==> !Has(w, q)
  {
    ZeroIff(w);
    63 - LastBelow(w, WordBits)
  }

  /** The set positions from `p` on, ascending. */
  function AscendingFrom(w: Word, p: nat): seq<nat>
    decreases WordBits - p
  {
    if p >= WordBits then [] else (if w[p] then [p] else []) + AscendingFrom(w, p + 1)
  }

  /** The set positions of a word, ascending (most significant bit first). */
  function WordPositions(w: Word): seq<nat> {
    AscendingFrom(w, 0)
  }

  /** The set positions below `p`, descending. */
  function DescendingBelow(w: Word, p: nat): seq<nat>
    requires p <= WordBits
  {
    if p == 0 then [] else (if w[p - 1] then [p - 1] else []) + DescendingBelow(w, p - 1)
  }

  /** The set positions of a word, descending (least significant bit first). */
  function DescendingPositions(w: Word): seq<nat> {
    DescendingBelow(w, WordBits)
  }

  predicate StrictlyIncreasing(s: seq<nat>) {
    forall i, j :: 0 <= i < j < |s| ==> s[i] < s[j]
  }

  predicate StrictlyDecreasing(s: seq<nat>) {
    forall i, j :: 0 <= i < j < |s| ==> s[i] > s[j]
  }

  lemma {:induction false} AscendingFromFacts(w: Word, p: nat)
    ensures StrictlyIncreasing(AscendingFrom(w, p))
    ensures forall q: nat :: q in AscendingFrom(w, p) <==> p <= q && Has(w, q)
    ensures |AscendingFrom(w, p)| == CountFrom(w, p)
    decreases WordBits - p
  {
    if p < WordBits {
      AscendingFromFacts(w, p + 1);
      var rest := AscendingFrom(w, p + 1);
      forall j | 0 <= j < |rest|
        ensures p < rest[j]
      {
        assert rest[j] in rest;
      }
    }
  }

  /** The word's positions are listed ascending, exactly once each, and there are
      `count_ones` of them. */
  lemma WordPositionsFacts(w: Word)
    ensures StrictlyIncreasing(WordPositions(w))
    ensures forall q: nat :: q in WordPositions(w) <==> Has(w, q)
    ensures |WordPositions(w)| == CountOnes(w)
  {
    AscendingFromFacts(w, 0);
  }

  lemma {:induction false} DescendingBelowFacts(w: Word, p: nat)
    requires p <= WordBits
    ensures StrictlyDecreasing(DescendingBelow(w, p))
    ensures forall q: nat :: q in DescendingBelow(w, p) <==> q < p && Has(w, q)
    ensures |DescendingBelow(w, p)| + CountFrom(w, p) == CountOnes(w)
  {
    if p > 0 {
      DescendingBelowFacts(w, p - 1);
      var rest := DescendingBelow(w, p - 1);
      forall j | 0 <= j < |rest|
        ensures rest[j] < p - 1
      {
        assert rest[j] in rest;
      }
      var head := if w[p - 1] then [p - 1] else [];
      assert DescendingBelow(w, p) == head + rest;
      assert CountFrom(w, p - 1) == |head| + CountFrom(w, p);
    } else {
      assert CountOnes(w) == CountFrom(w, 0);
    }
  }

  /** The word's positions are listed descending, exactly once each, and there are
      `count_ones` of them. */
  lemma DescendingPositionsFacts(w: Word)
    ensures StrictlyDecreasing(DescendingPositions(w))
    ensures forall q: nat :: q in DescendingPositions(w) <==> Has(w, q)
    ensures |DescendingPositions(w)| == CountOnes(w)
  {
    DescendingBelowFacts(w, WordBits);
  }

  lemma {:induction false} AscendingAgree(x: Word, y: Word, p: nat)
    requires forall q: nat :: p <= q ==> (Has(x, q) <==> Has(y, q))
    ensures AscendingFrom(x, p) == AscendingFrom(y, p)
    decreases WordBits - p
  {
    if p < WordBits {
      assert Has(x, p) <==> Has(y, p);
      AscendingAgree(x, y, p + 1);
    }
  }

  lemma {:induction false} AscendingSkip(x: Word, p: nat, r: nat)
    requires p <= r
    requires forall q: nat :: p <= q < r ==> !Has(x, q)
    ensures AscendingFrom(x, p) == AscendingFrom(x, r)
    decreases r - p
  {
    if p < r && p < WordBits {
      assert !Has(x, p);
      AscendingSkip(x, p + 1, r);
    }
  }

  lemma {:induction false} DescendingAgree(x: Word, y: Word, p: nat)
    requires p <= WordBits
    requires forall q: nat :: q < p ==> (Has(x, q) <==> Has(y, q))
    ensures DescendingBelow(x, p) == DescendingBelow(y, p)
  {
    if p > 0 {
      assert Has(x, p - 1) <==> Has(y, p - 1);
      DescendingAgree(x, y, p - 1);
    }
  }

  lemma {:induction false} DescendingSkip(x: Word, p: nat, r: nat)
    requires r <= p <= WordBits
    requires forall q: nat :: r <= q < p ==> !Has(x, q)
    ensures DescendingBelow(x, p) == DescendingBelow(x, r)
  {
    if r < p {
      assert !Has(x, p - 1);
      DescendingSkip(x, p - 1, r);
    }
  }

  /** Flipping the smallest set position removes it from the front of the ascending list. */
  lemma AscendingPop(v: Word)
    requires v != Zero()
    ensures WordPositions(v) == [LeadingZeros(v)] + WordPositions(Xor(v, Bit(LeadingZeros(v))))
  {
    var i := LeadingZeros(v);
    var v' := Xor(v, Bit(i));
    assert forall q: nat :: Has(v', q) <==> Has(v, q) && q != i;
    AscendingSkip(v, 0, i);
    AscendingSkip(v', 0, i + 1);
    AscendingAgree(v, v', i + 1);
    assert AscendingFrom(v, i) == [i] + AscendingFrom(v, i + 1);
  }

  /** Clearing the lowest set bit removes the largest position from the front of the
      descending list. */
  lemma DescendingPop(x: Word)
    requires x != Zero()
    ensures DescendingPositions(x) == [63 - TrailingZeros(x)] + DescendingPositions(And(x, Pred(x)))
  {
    var p := 63 - TrailingZeros(x);
    ClearLowest(x, p);
    var x' := And(x, Pred(x));
    assert forall q: nat :: Has(x', q) <==> Has(x, q) && q != p;
    DescendingSkip(x, WordBits, p + 1);
    DescendingSkip(x', WordBits, p);
    DescendingAgree(x, x', p);
    assert DescendingBelow(x, p + 1) == [p] + DescendingBelow(x, p);
  }
}
