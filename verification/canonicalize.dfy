/**
 * Rotation and canonical form of a circular sequence (lib/src/canonicalize.rs).
 *
 * `lmsr_index` is documented as the index of the lexicographically minimal
 * rotation, but its scan never looks past the end of the input (it does not
 * run over `s ++ s`), so what it returns is the start of the last run of its
 * Lyndon-style factor scan. The model follows the code; `LmsrIndexNotMinimal`
 * exhibits an input on which the two differ.
 */
module Canonicalize {
  import opened Bytes
  import opened Dna
  import opened Modular

  /** `s[k..] ++ s[..k]`: the rotation of `s` that starts at byte `k`. */
  function Rotation(s: seq<Byte>, k: nat): (r: seq<Byte>)
    requires k <= |s|
    ensures |r| == |s|
  {
    s[k..] + s[..k]
  }

  /** Byte `i` of the rotation starting at `k` is byte `(k + i) mod |s|` of `s`. */
  lemma RotationAt(s: seq<Byte>, k: nat, i: nat)
    requires k <= |s| && i < |s|
    ensures Rotation(s, k)[i] == s[(k + i) % |s|]
  {
    ModRange(k + i, |s|);
  }

  ghost predicate IsRotationOf(r: seq<Byte>, s: seq<Byte>)
  {
    exists k :: 0 <= k <= |s| && r == Rotation(s, k)
  }

  /** Two sequences of equal length that agree at every index are equal. */
  lemma RotationsAgree(a: seq<Byte>, b: seq<Byte>)
    requires |a| == |b|
    requires forall i :: 0 <= i < |a| ==> a[i] == b[i]
    ensures a == b
  {
  }

  /** A rotation of a rotation is a rotation. */
  lemma {:induction false} RotationOfRotation(s: seq<Byte>, a: nat, b: nat)
    requires a <= |s| && b <= |s| && |s| > 0
    ensures Rotation(Rotation(s, a), b) == Rotation(s, (a + b) % |s|)
  {
    var n := |s|;
    var lhs := Rotation(Rotation(s, a), b);
    var rhs := Rotation(s, (a + b) % n);
    forall i | 0 <= i < n
      ensures lhs[i] == rhs[i]
    {
      var u := (b + i) % n;
      RotationAt(Rotation(s, a), b, i);
      RotationAt(s, a, u);
      ModRange(a + b, n);
      RotationAt(s, (a + b) % n, i);
      ModRange(b + i, n);
      ModRange(a + u, n);
      ModRange((a + b) % n + i, n);
    }
    RotationsAgree(lhs, rhs);
  }

  /** The reverse complement of a rotation is a rotation of the reverse complement. */
  lemma {:induction false} RevCompOfRotation(s: seq<Byte>, k: nat)
    requires k <= |s| && |s| > 0
    ensures RevComp(Rotation(s, k)) == Rotation(RevComp(s), (|s| - k) % |s|)
  {
    var n := |s|;
    var m := (n - k) % n;
    ModRange(n - k, n);
    var lhs := RevComp(Rotation(s, k));
    var rhs := Rotation(RevComp(s), m);
    forall i | 0 <= i < n
      ensures lhs[i] == rhs[i]
    {
      RevCompAt(Rotation(s, k), i);
      RotationAt(s, k, n - 1 - i);
      ModRange(k + (n - 1 - i), n);
      RotationAt(RevComp(s), m, i);
      ModRange(m + i, n);
      RevCompAt(s, (m + i) % n);
    }
    RotationsAgree(lhs, rhs);
  }

  lemma RotationIsRotation(s: seq<Byte>, k: nat)
    requires k <= |s|
    ensures IsRotationOf(Rotation(s, k), s)
  {
  }

  lemma {:induction false} RotationOfRotationIsRotation(r: seq<Byte>, s: seq<Byte>, b: nat)
    requires IsRotationOf(r, s) && b <= |r|
    ensures IsRotationOf(Rotation(r, b), s)
  {
    var a :| 0 <= a <= |s| && r == Rotation(s, a);
    if |s| > 0 {
      RotationOfRotation(s, a, b);
      RotationIsRotation(s, (a + b) % |s|);
    } else {
      assert Rotation(r, b) == s[0..] + s[..0];
    }
  }

  // ---------------------------------------------------------------------------
  // lmsr_index (lib/src/canonicalize.rs:4-25), as a function of its loop state
  // ---------------------------------------------------------------------------

  /**
   * The inner loop `while j < n && s[k % n] <= s[j % n]`, run from cursor `j`
   * and candidate `k` until it stops; the result is the final `(j, k)`.
   * The loop keeps `i <= k < j <= n`.
   */
  function Scan(s: seq<Byte>, i: nat, j: nat, k: nat): (jk: (nat, nat))
    requires i <= k < j <= |s|
    ensures j <= jk.0 <= |s| && i <= jk.1 < jk.0
    decreases |s| - j
  {
    if j < |s| && s[k % |s|] <= s[j % |s|] then
      Scan(s, i, j + 1, if s[k % |s|] < s[j % |s|] then i else k + 1)
    else (j, k)
  }

  /** The skip loop `while i <= k { i += j - k }`: it leaves `i` past `k` and at most `j`. */
  function Skip(i: nat, j: nat, k: nat): (r: nat)
    requires k < j
    ensures k < r
    ensures i <= k ==> r <= j
    ensures k < i ==> r == i
    decreases if i <= k then k + 1 - i else 0
  {
    if i <= k then Skip(i + (j - k), j, k) else i
  }

  /** The outer loop from candidate `i` with last answer `ans`; every round moves `i` strictly forward. */
  function LmsrFrom(s: seq<Byte>, i: nat, ans: nat): (r: nat)
    requires i <= |s|
    ensures i < |s| ==> i <= r < |s|
    ensures i == |s| ==> r == ans
    decreases |s| - i
  {
    if i < |s| then
      var jk := Scan(s, i, i + 1, i);
      LmsrFrom(s, Skip(i, jk.0, jk.1), i)
    else ans
  }

  /** `lmsr_index(s)`: an index into `s`, and 0 for the empty input (the loop is skipped). */
  function LmsrIndex(s: seq<Byte>): (r: nat)
    ensures |s| > 0 ==> r < |s|
    ensures |s| == 0 ==> r == 0
  {
    LmsrFrom(s, 0, 0)
  }

  /** The inner comparison loop of `lmsr_index` (lib/src/canonicalize.rs:11-18), from `j = i + 1`, `k = i`. */
  method ScanLoop(s: seq<Byte>, i: nat) returns (j: nat, k: nat)
    requires i < |s|
    ensures (j, k) == Scan(s, i, i + 1, i)
    ensures i <= k < j <= |s|
  {
    var n := |s|;
    j := i + 1;
    k := i;
    while j < n && s[k % n] <= s[j % n]
      invariant i <= k < j <= n
      invariant Scan(s, i, j, k) == Scan(s, i, i + 1, i)
      decreases n - j
    {
      ghost var next := if s[k % n] < s[j % n] then i else k + 1;
      assert Scan(s, i, j, k) == Scan(s, i, j + 1, next);
      if s[k % n] < s[j % n] {
        k := i;
      } else {
        k := k + 1;
      }
      j := j + 1;
    }
  }

  /** The skip loop of `lmsr_index` (lib/src/canonicalize.rs:19-21). */
  method SkipLoop(i0: nat, j: nat, k: nat) returns (i: nat)
    requires k < j
    ensures i == Skip(i0, j, k)
    ensures k < i && (i0 <= k ==> i <= j)
  {
    i := i0;
    while i <= k
      invariant i0 <= i
      invariant Skip(i, j, k) == Skip(i0, j, k)
      decreases if i <= k then k + 1 - i else 0
    {
      assert Skip(i, j, k) == Skip(i + (j - k), j, k);
      i := i + (j - k);
    }
  }

  /** `lmsr_index` (lib/src/canonicalize.rs:4-25): the outer loop, with the two inner loops above. */
  method LmsrIndexLoop(s: seq<Byte>) returns (ans: nat)
    ensures ans == LmsrIndex(s)
    ensures |s| > 0 ==> ans < |s|
  {
    var n := |s|;
    var i := 0;
    ans := 0;
    while i < n
      invariant i <= n
      invariant LmsrFrom(s, i, ans) == LmsrIndex(s)
      decreases n - i
    {
      ans := i;
      var j, k := ScanLoop(s, i);
      i := SkipLoop(i, j, k);
    }
  }

  // ---------------------------------------------------------------------------
  // lmsr and canonicalize
  // ---------------------------------------------------------------------------

  /** `lmsr(s)`: `s` rotated to start at `lmsr_index(s)` (lib/src/canonicalize.rs:50-57). */
  function Lmsr(s: seq<Byte>): (r: seq<Byte>)
    ensures |r| == |s|
    ensures IsRotationOf(r, s)
  {
    var i := LmsrIndex(s);
    RotationIsRotation(s, i);
    Rotation(s, i)
  }

  /** `lmsr` permutes the bytes of its input and puts byte `lmsr_index(s) + i` (cyclically) at `i`. */
  lemma LmsrContents(s: seq<Byte>, i: nat)
    requires i < |s|
    ensures multiset(Lmsr(s)) == multiset(s)
    ensures Lmsr(s)[i] == s[(LmsrIndex(s) + i) % |s|]
  {
    var k := LmsrIndex(s);
    assert s == s[..k] + s[k..];
    RotationAt(s, k, i);
  }

  /**
   * `canonicalize(s)` (lib/src/canonicalize.rs:83-92): the rotated input, or
   * the rotated reverse complement of the rotated input, whichever is smaller
   * (the second when they are equal).
   */
  function Canonicalize(s: seq<Byte>): (r: seq<Byte>)
    ensures |r| == |s|
    ensures r == Lmsr(s) || r == Lmsr(RevComp(Lmsr(s)))
    ensures !LexLess(Lmsr(s), r) && !LexLess(Lmsr(RevComp(Lmsr(s))), r)
    ensures r == Lmsr(s) <==> LexLess(Lmsr(s), Lmsr(RevComp(Lmsr(s)))) || Lmsr(s) == Lmsr(RevComp(Lmsr(s)))
    ensures IsRotationOf(r, s) || IsRotationOf(r, RevComp(s))
  {
    var lmsrS := Lmsr(s);
    var lmsrRevCompS := Lmsr(RevComp(lmsrS));
    LexLessIrreflexive(lmsrS);
    LexLessIrreflexive(lmsrRevCompS);
    if LexLess(lmsrS, lmsrRevCompS) then
      LexLessAsymmetric(lmsrS, lmsrRevCompS);
      lmsrS
    else
      CanonicalRevCompIsRotation(s);
      lmsrRevCompS
  }

  /** The second candidate of `canonicalize` is a rotation of the reverse complement of the input. */
  lemma CanonicalRevCompIsRotation(s: seq<Byte>)
    ensures IsRotationOf(Lmsr(RevComp(Lmsr(s))), RevComp(s))
  {
    var k :| 0 <= k <= |s| && Lmsr(s) == Rotation(s, k);
    if |s| > 0 {
      RevCompOfRotation(s, k);
      RotationIsRotation(RevComp(s), (|s| - k) % |s|);
      RotationOfRotationIsRotation(RevComp(Lmsr(s)), RevComp(s), LmsrIndex(RevComp(Lmsr(s))));
    } else {
      assert Lmsr(RevComp(Lmsr(s))) == [] == Rotation(RevComp(s), 0);
    }
  }

  // ---------------------------------------------------------------------------
  // Fixtures of the source's unit tests (lib/src/canonicalize.rs:31-44, 63-80, 97-104).
  // Each index proof walks the loop state of `lmsr_index` step by step.
  // ---------------------------------------------------------------------------

  /** On three equal bytes the comparison loop runs to the end with `k` trailing `j`, and the answer is 0. */
  lemma LmsrIndexUniform3(s: seq<Byte>)
    requires |s| == 3 && s[0] == s[1] == s[2]
    ensures LmsrIndex(s) == 0
  {
    assert Scan(s, 0, 3, 2) == (3, 2);
    assert Scan(s, 0, 2, 1) == (3, 2);
    assert Scan(s, 0, 1, 0) == (3, 2);
    assert Skip(0, 3, 2) == 3;
    assert LmsrFrom(s, 3, 0) == 0;
    assert LmsrFrom(s, 0, 0) == 0;
  }

  /** When the first of three bytes is below the other two, `k` stays at 0 and the answer is 0. */
  lemma LmsrIndexLeastFirst3(s: seq<Byte>)
    requires |s| == 3 && s[0] < s[1] && s[0] < s[2]
    ensures LmsrIndex(s) == 0
  {
    assert Scan(s, 0, 3, 0) == (3, 0);
    assert Scan(s, 0, 2, 0) == (3, 0);
    assert Scan(s, 0, 1, 0) == (3, 0);
    assert Skip(0, 3, 0) == 3;
    assert LmsrFrom(s, 3, 0) == 0;
    assert LmsrFrom(s, 0, 0) == 0;
  }

  lemma LmsrIndexAaa(s: seq<Byte>)
    requires s == "AAA"
    ensures LmsrIndex(s) == 0
  {
    LmsrIndexUniform3(s);
  }

  lemma LmsrAaa(s: seq<Byte>)
    requires s == "AAA"
    ensures Lmsr(s) == "AAA"
  {
    LmsrIndexAaa(s);
    assert Lmsr(s) == s[0..] + s[..0];
  }

  lemma LmsrIndexBanana(s: seq<Byte>)
    requires s == "banana"
    ensures LmsrIndex(s) == 5
  {
    assert Scan(s, 0, 1, 0) == (1, 0);
    assert Skip(0, 1, 0) == 1;
    assert Scan(s, 1, 6, 4) == (6, 4);
    assert Scan(s, 1, 5, 3) == (6, 4);
    assert Scan(s, 1, 4, 2) == (6, 4);
    assert Scan(s, 1, 3, 1) == (6, 4);
    assert Scan(s, 1, 2, 1) == (6, 4);
    assert Skip(1, 6, 4) == 5;
    assert Scan(s, 5, 6, 5) == (6, 5);
    assert Skip(5, 6, 5) == 6;
    assert LmsrFrom(s, 6, 5) == 5;
    assert LmsrFrom(s, 5, 1) == 5;
    assert LmsrFrom(s, 1, 0) == 5;
    assert LmsrFrom(s, 0, 0) == 5;
  }

  lemma LmsrBanana(s: seq<Byte>)
    requires s == "banana"
    ensures Lmsr(s) == "abanan"
  {
    LmsrIndexBanana(s);
    assert Lmsr(s) == s[5..] + s[..5];
  }

  lemma LmsrIndexTaa(s: seq<Byte>)
    requires s == "TAA"
    ensures LmsrIndex(s) == 1
  {
    assert Scan(s, 0, 1, 0) == (1, 0);
    assert Skip(0, 1, 0) == 1;
    assert Scan(s, 1, 3, 2) == (3, 2);
    assert Scan(s, 1, 2, 1) == (3, 2);
    assert Skip(1, 3, 2) == 3;
    assert LmsrFrom(s, 3, 1) == 1;
    assert LmsrFrom(s, 1, 0) == 1;
    assert LmsrFrom(s, 0, 0) == 1;
  }

  lemma LmsrTaa(s: seq<Byte>)
    requires s == "TAA"
    ensures Lmsr(s) == "AAT"
  {
    LmsrIndexTaa(s);
    assert Lmsr(s) == s[1..] + s[..1];
  }

  lemma LmsrIndexAtgcagatacaga(s: seq<Byte>)
    requires s == "ATGCAGATACAGA"
    ensures LmsrIndex(s) == 12
  {
    assert Scan(s, 0, 5, 1) == (5, 1);
    assert Scan(s, 0, 4, 0) == (5, 1);
    assert Scan(s, 0, 3, 0) == (5, 1);
    assert Scan(s, 0, 2, 0) == (5, 1);
    assert Scan(s, 0, 1, 0) == (5, 1);
    assert Skip(0, 5, 1) == 4;
    assert Scan(s, 4, 9, 5) == (9, 5);
    assert Scan(s, 4, 8, 4) == (9, 5);
    assert Scan(s, 4, 7, 5) == (9, 5);
    assert Scan(s, 4, 6, 4) == (9, 5);
    assert Scan(s, 4, 5, 4) == (9, 5);
    assert Skip(4, 9, 5) == 8;
    assert Scan(s, 8, 13, 9) == (13, 9);
    assert Scan(s, 8, 12, 8) == (13, 9);
    assert Scan(s, 8, 11, 9) == (13, 9);
    assert Scan(s, 8, 10, 8) == (13, 9);
    assert Scan(s, 8, 9, 8) == (13, 9);
    assert Skip(8, 13, 9) == 12;
    assert Scan(s, 12, 13, 12) == (13, 12);
    assert Skip(12, 13, 12) == 13;
    assert LmsrFrom(s, 13, 12) == 12;
    assert LmsrFrom(s, 12, 8) == 12;
    assert LmsrFrom(s, 8, 4) == 12;
    assert LmsrFrom(s, 4, 0) == 12;
    assert LmsrFrom(s, 0, 0) == 12;
  }

  lemma LmsrAtgcagatacaga(s: seq<Byte>)
    requires s == "ATGCAGATACAGA"
    ensures Lmsr(s) == "AATGCAGATACAG"
  {
    LmsrIndexAtgcagatacaga(s);
    assert Lmsr(s) == Rotation(s, 12);
    assert s[12..] == "A" && s[..12] == "ATGCAGATACAG";
  }

  lemma LmsrIndexAatgcagatacag(s: seq<Byte>)
    requires s == "AATGCAGATACAG"
    ensures LmsrIndex(s) == 0
  {
    assert Scan(s, 0, 13, 0) == (13, 0);
    assert Scan(s, 0, 12, 1) == (13, 0);
    assert Scan(s, 0, 11, 0) == (13, 0);
    assert Scan(s, 0, 10, 1) == (13, 0);
    assert Scan(s, 0, 9, 0) == (13, 0);
    assert Scan(s, 0, 8, 1) == (13, 0);
    assert Scan(s, 0, 7, 0) == (13, 0);
    assert Scan(s, 0, 6, 1) == (13, 0);
    assert Scan(s, 0, 5, 0) == (13, 0);
    assert Scan(s, 0, 4, 0) == (13, 0);
    assert Scan(s, 0, 3, 0) == (13, 0);
    assert Scan(s, 0, 2, 1) == (13, 0);
    assert Scan(s, 0, 1, 0) == (13, 0);
    assert Skip(0, 13, 0) == 13;
    assert LmsrFrom(s, 13, 0) == 0;
    assert LmsrFrom(s, 0, 0) == 0;
  }

  lemma LmsrAatgcagatacag(s: seq<Byte>)
    requires s == "AATGCAGATACAG"
    ensures Lmsr(s) == "AATGCAGATACAG"
  {
    LmsrIndexAatgcagatacag(s);
    assert Lmsr(s) == s[0..] + s[..0];
  }

  /** `lmsr` applied to its own output on "ATGCAGATACAGA" changes nothing. */
  lemma LmsrSecondApplicationIdentical(s: seq<Byte>)
    requires s == "ATGCAGATACAGA"
    ensures Lmsr(Lmsr(s)) == Lmsr(s)
  {
    LmsrAtgcagatacaga(s);
    LmsrAatgcagatacag(Lmsr(s));
  }

  lemma LmsrTtt(s: seq<Byte>)
    requires s == "TTT"
    ensures Lmsr(s) == "TTT"
  {
    LmsrIndexUniform3(s);
    assert Lmsr(s) == s[0..] + s[..0];
  }

  lemma CanonicalizeAaa(s: seq<Byte>)
    requires s == "AAA"
    ensures Canonicalize(s) == "AAA"
  {
    LmsrAaa(s);
    var r := RevComp(Lmsr(s));
    RevCompAt(Lmsr(s), 0);
    RevCompAt(Lmsr(s), 1);
    RevCompAt(Lmsr(s), 2);
    assert r == "TTT";
    LmsrTtt(r);
    assert LexLess("AAA", "TTT");
  }

  lemma LmsrIndexAtt(s: seq<Byte>)
    requires s == "ATT"
    ensures LmsrIndex(s) == 0
  {
    LmsrIndexLeastFirst3(s);
  }

  lemma LmsrAtt(s: seq<Byte>)
    requires s == "ATT"
    ensures Lmsr(s) == "ATT"
  {
    LmsrIndexAtt(s);
    assert Lmsr(s) == s[0..] + s[..0];
  }

  lemma LmsrIndexAat(s: seq<Byte>)
    requires s == "AAT"
    ensures LmsrIndex(s) == 0
  {
    assert Scan(s, 0, 3, 0) == (3, 0);
    assert Scan(s, 0, 2, 1) == (3, 0);
    assert Scan(s, 0, 1, 0) == (3, 0);
    assert Skip(0, 3, 0) == 3;
    assert LmsrFrom(s, 3, 0) == 0;
    assert LmsrFrom(s, 0, 0) == 0;
  }

  lemma LmsrAat(s: seq<Byte>)
    requires s == "AAT"
    ensures Lmsr(s) == "AAT"
  {
    LmsrIndexAat(s);
    assert Lmsr(s) == s[0..] + s[..0];
  }

  lemma CanonicalizeAtt(s: seq<Byte>)
    requires s == "ATT"
    ensures Canonicalize(s) == "AAT"
  {
    LmsrAtt(s);
    var r := RevComp(Lmsr(s));
    RevCompAt(Lmsr(s), 0);
    RevCompAt(Lmsr(s), 1);
    RevCompAt(Lmsr(s), 2);
    assert r == "AAT";
    LmsrAat(r);
    assert !LexLess("ATT", "AAT");
  }

  lemma LmsrIndexBaaba(s: seq<Byte>)
    requires s == "BAABA"
    ensures LmsrIndex(s) == 4
  {
    assert Scan(s, 0, 1, 0) == (1, 0);
    assert Skip(0, 1, 0) == 1;
    assert Scan(s, 1, 5, 2) == (5, 2);
    assert Scan(s, 1, 4, 1) == (5, 2);
    assert Scan(s, 1, 3, 2) == (5, 2);
    assert Scan(s, 1, 2, 1) == (5, 2);
    assert Skip(1, 5, 2) == 4;
    assert Scan(s, 4, 5, 4) == (5, 4);
    assert Skip(4, 5, 4) == 5;
    assert LmsrFrom(s, 5, 4) == 4;
    assert LmsrFrom(s, 4, 1) == 4;
    assert LmsrFrom(s, 1, 0) == 4;
    assert LmsrFrom(s, 0, 0) == 4;
  }

  /**
   * The doc comment of `lmsr_index` promises the minimal rotation. On "BAABA"
   * the scan returns 4, giving "ABAAB", although the rotation at 1, "AABAB",
   * is smaller.
   */
  lemma LmsrIndexNotMinimal(s: seq<Byte>)
    requires s == "BAABA"
    ensures LmsrIndex(s) == 4
    ensures Lmsr(s) == "ABAAB"
    ensures LexLess(Rotation(s, 1), Lmsr(s))
  {
    LmsrIndexBaaba(s);
    assert Lmsr(s) == s[4..] + s[..4];
    assert Rotation(s, 1) == "AABAB";
    assert LexLess("AABAB", "ABAAB");
  }
}
