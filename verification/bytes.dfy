/**
 * Byte strings as the library sees them: `&[u8]` slices compared with
 * Rust's lexicographic `Ord`, and the Hamming distance that rust-bio's
 * `alignment::distance::simd::hamming` computes.
 */
module Bytes {

  /** A byte. Kept as a character below 256 so that ASCII text can be written as a literal. */
  type Byte = c: char | c as int < 256

  /**
   * Rust's `<` on byte slices: the first differing byte decides, and a
   * proper prefix is smaller than the longer slice.
   */
  predicate LexLess(a: seq<Byte>, b: seq<Byte>)
  {
    if |a| == 0 then |b| > 0
    else if |b| == 0 then false
    else a[0] < b[0] || (a[0] == b[0] && LexLess(a[1..], b[1..]))
  }

  lemma {:induction false} LexLessIrreflexive(a: seq<Byte>)
    ensures !LexLess(a, a)
  {
    if |a| > 0 {
      LexLessIrreflexive(a[1..]);
    }
  }

  lemma {:induction false} LexLessAsymmetric(a: seq<Byte>, b: seq<Byte>)
    requires LexLess(a, b)
    ensures !LexLess(b, a)
  {
    if |a| > 0 && |b| > 0 && a[0] == b[0] {
      LexLessAsymmetric(a[1..], b[1..]);
    }
  }

  lemma {:induction false} LexLessTransitive(a: seq<Byte>, b: seq<Byte>, c: seq<Byte>)
    requires LexLess(a, b) && LexLess(b, c)
    ensures LexLess(a, c)
  {
    if |a| > 0 && |b| > 0 && |c| > 0 && a[0] == b[0] && b[0] == c[0] {
      LexLessTransitive(a[1..], b[1..], c[1..]);
    }
  }

  /** Any two different slices are ordered one way or the other. */
  lemma {:induction false} LexLessTotal(a: seq<Byte>, b: seq<Byte>)
    requires a != b
    ensures LexLess(a, b) || LexLess(b, a)
  {
    if |a| > 0 && |b| > 0 && a[0] == b[0] {
      assert a == [a[0]] + a[1..] && b == [b[0]] + b[1..];
      LexLessTotal(a[1..], b[1..]);
    }
  }

  /**
   * Number of positions at which two equal-length slices differ. rust-bio
   * panics on slices of different lengths; here that is a precondition.
   */
  function Hamming(a: seq<Byte>, b: seq<Byte>): (d: nat)
    requires |a| == |b|
    ensures d <= |a|
  {
    if |a| == 0 then 0
    else
      assert a == [a[0]] + a[1..] && b == [b[0]] + b[1..];
      (if a[0] != b[0] then 1 else 0) + Hamming(a[1..], b[1..])
  }

  /** The distance is zero exactly between equal slices. */
  lemma {:induction false} HammingZero(a: seq<Byte>, b: seq<Byte>)
    requires |a| == |b|
    ensures Hamming(a, b) == 0 <==> a == b
  {
    if |a| > 0 {
      HammingZero(a[1..], b[1..]);
      assert a == [a[0]] + a[1..] && b == [b[0]] + b[1..];
    }
  }

  lemma {:induction false} HammingSymmetric(a: seq<Byte>, b: seq<Byte>)
    requires |a| == |b|
    ensures Hamming(a, b) == Hamming(b, a)
  {
    if |a| > 0 {
      HammingSymmetric(a[1..], b[1..]);
    }
  }
}
