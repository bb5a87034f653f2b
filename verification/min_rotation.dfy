/**
 * The minimal rotation that `lmsr_index` and `canonicalize` are documented to
 * compute (lib/src/canonicalize.rs:3, 47, 83-92), defined directly: every
 * rotation is compared with the best one seen so far. On this definition the
 * canonical form is the same for every rotation and for both strands, which
 * is what the library relies on when it uses it to key circular sequences.
 */
module MinimalRotation {
  import opened Bytes
  import opened Dna
  import opened Modular
  import opened Canonicalize

  /** Scan of the rotations at `k`, `k + 1`, ..., keeping the first smallest; `best` is the smallest before `k`. */
  function MinRotationFrom(s: seq<Byte>, k: nat, best: nat): (r: nat)
    requires best < k <= |s|
    ensures r < |s|
    ensures r == best || k <= r
    decreases |s| - k
  {
    if k == |s| then best
    else MinRotationFrom(s, k + 1, if LexLess(Rotation(s, k), Rotation(s, best)) then k else best)
  }

  /** Index of the first lexicographically smallest rotation; 0 for the empty sequence. */
  function MinRotationIndex(s: seq<Byte>): (r: nat)
    ensures |s| > 0 ==> r < |s|
    ensures |s| == 0 ==> r == 0
  {
    if |s| == 0 then 0 else MinRotationFrom(s, 1, 0)
  }

  /** The smallest rotation of `s`. */
  function MinRotation(s: seq<Byte>): (r: seq<Byte>)
    ensures |r| == |s|
    ensures IsRotationOf(r, s)
  {
    RotationIsRotation(s, MinRotationIndex(s));
    Rotation(s, MinRotationIndex(s))
  }

  lemma {:induction false} MinRotationFromMinimal(s: seq<Byte>, k: nat, best: nat)
    requires best < k <= |s|
    requires forall j :: 0 <= j < k ==> !LexLess(Rotation(s, j), Rotation(s, best))
    ensures forall j :: 0 <= j < |s| ==> !LexLess(Rotation(s, j), Rotation(s, MinRotationFrom(s, k, best)))
    decreases |s| - k
  {
    if k < |s| {
      var rk := Rotation(s, k);
      var rb := Rotation(s, best);
      if LexLess(rk, rb) {
        forall j | 0 <= j < k + 1
          ensures !LexLess(Rotation(s, j), rk)
        {
          if j == k {
            LexLessIrreflexive(rk);
          } else if LexLess(Rotation(s, j), rk) {
            LexLessTransitive(Rotation(s, j), rk, rb);
          }
        }
        MinRotationFromMinimal(s, k + 1, k);
      } else {
        MinRotationFromMinimal(s, k + 1, best);
      }
    }
  }

  /** No rotation of `s`, at any offset `0..=|s|`, is smaller than `MinRotation(s)`. */
  lemma MinRotationIsMinimal(s: seq<Byte>, j: nat)
    requires j <= |s|
    ensures !LexLess(Rotation(s, j), MinRotation(s))
  {
    if |s| == 0 {
      LexLessIrreflexive(s);
    } else {
      LexLessIrreflexive(Rotation(s, 0));
      MinRotationFromMinimal(s, 1, 0);
      if j == |s| {
        assert Rotation(s, j) == Rotation(s, 0);
      }
    }
  }

  /** A rotation that no rotation undercuts is the minimal rotation: the minimum is unique. */
  lemma MinimalRotationUnique(s: seq<Byte>, k: nat)
    requires k <= |s|
    requires forall j :: 0 <= j <= |s| ==> !LexLess(Rotation(s, j), Rotation(s, k))
    ensures Rotation(s, k) == MinRotation(s)
  {
    var m := MinRotation(s);
    assert !LexLess(Rotation(s, MinRotationIndex(s)), Rotation(s, k));
    MinRotationIsMinimal(s, k);
    if Rotation(s, k) != m {
      LexLessTotal(Rotation(s, k), m);
    }
  }

  /** `((k + (j + n - k) mod n) mod n) == j mod n` for offsets within one turn. */
  lemma OffsetBack(n: nat, k: nat, j: nat)
    requires 0 < n && k <= n && j <= n
    ensures (k + (j + n - k) % n) % n == j % n
  {
    ModRange(j + n - k, n);
    ModRange(k + (j + n - k) % n, n);
    ModRange(j, n);
  }

  /** Every rotation of `s` is a rotation of any given rotation of `s`. */
  lemma RotationThroughRotation(s: seq<Byte>, k: nat, j: nat)
    requires 0 < |s| && k <= |s| && j <= |s|
    ensures Rotation(s, j) == Rotation(Rotation(s, k), (j + |s| - k) % |s|)
  {
    var n := |s|;
    var b := (j + n - k) % n;
    ModRange(j + n - k, n);
    RotationOfRotation(s, k, b);
    OffsetBack(n, k, j);
    if j == n {
      ModUnique(j, n, 1, 0);
      assert Rotation(s, j) == s == Rotation(s, 0);
    } else {
      ModUnique(j, n, 0, j);
    }
  }

  /** Rotating the input first does not change its minimal rotation. */
  lemma MinRotationOfRotation(s: seq<Byte>, k: nat)
    requires k <= |s|
    ensures MinRotation(Rotation(s, k)) == MinRotation(s)
  {
    var n := |s|;
    var t := Rotation(s, k);
    if n == 0 {
      assert t == s;
    } else {
      var i := MinRotationIndex(t);
      var a := (k + i) % n;
      RotationOfRotation(s, k, i);
      assert MinRotation(t) == Rotation(s, a);
      forall j | 0 <= j <= n
        ensures !LexLess(Rotation(s, j), Rotation(s, a))
      {
        RotationThroughRotation(s, k, j);
        ModRange(j + n - k, n);
        MinRotationIsMinimal(t, (j + n - k) % n);
      }
      MinimalRotationUnique(s, a);
    }
  }

  /** Any two rotations of the same sequence have the same minimal rotation. */
  lemma MinRotationOfAnyRotation(r: seq<Byte>, s: seq<Byte>)
    requires IsRotationOf(r, s)
    ensures MinRotation(r) == MinRotation(s)
  {
    var k :| 0 <= k <= |s| && r == Rotation(s, k);
    MinRotationOfRotation(s, k);
  }

  /** The reverse complement of a rotation of `s` is a rotation of the reverse complement of `s`. */
  lemma RevCompOfRotationIsRotation(r: seq<Byte>, s: seq<Byte>)
    requires IsRotationOf(r, s)
    ensures IsRotationOf(RevComp(r), RevComp(s))
  {
    var k :| 0 <= k <= |s| && r == Rotation(s, k);
    if |s| == 0 {
      assert RevComp(r) == Rotation(RevComp(s), 0);
    } else {
      RevCompOfRotation(s, k);
      RotationIsRotation(RevComp(s), (|s| - k) % |s|);
    }
  }

  // ---------------------------------------------------------------------------
  // The canonical form as documented
  // ---------------------------------------------------------------------------

  /**
   * `canonicalize` with the minimal rotation in place of `lmsr`: the smaller of
   * the minimal rotation of `s` and the minimal rotation of its reverse complement.
   */
  function CanonicalForm(s: seq<Byte>): (r: seq<Byte>)
    ensures |r| == |s|
    ensures IsRotationOf(r, s) || IsRotationOf(r, RevComp(s))
  {
    var a := MinRotation(s);
    var b := MinRotation(RevComp(a));
    RevCompOfRotationIsRotation(a, s);
    MinRotationOfAnyRotation(RevComp(a), RevComp(s));
    if LexLess(a, b) then a else b
  }

  /** The second candidate only depends on the reverse-complement strand. */
  lemma SecondCandidate(s: seq<Byte>)
    ensures MinRotation(RevComp(MinRotation(s))) == MinRotation(RevComp(s))
  {
    RevCompOfRotationIsRotation(MinRotation(s), s);
    MinRotationOfAnyRotation(RevComp(MinRotation(s)), RevComp(s));
  }

  /** The canonical form is no larger than any rotation of either strand. */
  lemma CanonicalFormMinimal(s: seq<Byte>, j: nat)
    requires j <= |s|
    ensures !LexLess(Rotation(s, j), CanonicalForm(s))
    ensures !LexLess(Rotation(RevComp(s), j), CanonicalForm(s))
  {
    var a := MinRotation(s);
    var b := MinRotation(RevComp(s));
    SecondCandidate(s);
    MinRotationIsMinimal(s, j);
    MinRotationIsMinimal(RevComp(s), j);
    if LexLess(a, b) {
      if LexLess(Rotation(RevComp(s), j), a) {
        LexLessTransitive(Rotation(RevComp(s), j), a, b);
      }
    } else if a != b {
      LexLessTotal(a, b);
      if LexLess(Rotation(s, j), b) {
        LexLessTransitive(Rotation(s, j), b, a);
      }
    }
  }

  /** Every rotation of a sequence has the same canonical form. */
  lemma CanonicalFormRotationInvariant(s: seq<Byte>, k: nat)
    requires k <= |s|
    ensures CanonicalForm(Rotation(s, k)) == CanonicalForm(s)
  {
    var t := Rotation(s, k);
    MinRotationOfRotation(s, k);
    SecondCandidate(s);
    SecondCandidate(t);
  }

  /** Both strands of a circular sequence have the same canonical form. */
  lemma CanonicalFormStrandInvariant(s: seq<Byte>)
    ensures CanonicalForm(RevComp(s)) == CanonicalForm(s)
  {
    var a := MinRotation(s);
    var b := MinRotation(RevComp(s));
    SecondCandidate(s);
    SecondCandidate(RevComp(s));
    RevCompInvolution(s);
    if a != b {
      LexLessTotal(a, b);
      if LexLess(a, b) {
        LexLessAsymmetric(a, b);
      } else {
        LexLessAsymmetric(b, a);
      }
    }
  }

  /** Canonicalising a canonical form changes nothing. */
  lemma CanonicalFormIdempotent(s: seq<Byte>)
    ensures CanonicalForm(CanonicalForm(s)) == CanonicalForm(s)
  {
    var c := CanonicalForm(s);
    if IsRotationOf(c, s) {
      var k :| 0 <= k <= |s| && c == Rotation(s, k);
      CanonicalFormRotationInvariant(s, k);
    } else {
      var k :| 0 <= k <= |RevComp(s)| && c == Rotation(RevComp(s), k);
      CanonicalFormRotationInvariant(RevComp(s), k);
      CanonicalFormStrandInvariant(s);
    }
  }

  /** On the input that separates the two, the minimal rotation of "BAABA" is "AABAB". */
  lemma MinRotationBaaba(s: seq<Byte>)
    requires s == "BAABA"
    ensures MinRotation(s) == "AABAB"
    ensures LexLess(MinRotation(s), Lmsr(s))
  {
    assert Rotation(s, 1) == "AABAB";
    assert Rotation(s, 2) == "ABABA";
    assert Rotation(s, 3) == "BABAA";
    assert Rotation(s, 4) == "ABAAB";
    assert LexLess("AABAB", "BAABA");
    assert !LexLess("ABABA", "AABAB");
    assert !LexLess("BABAA", "AABAB");
    assert !LexLess("ABAAB", "AABAB");
    assert MinRotationFrom(s, 5, 1) == 1;
    assert MinRotationFrom(s, 4, 1) == 1;
    assert MinRotationFrom(s, 3, 1) == 1;
    assert MinRotationFrom(s, 2, 1) == 1;
    assert MinRotationFrom(s, 1, 0) == 1;
    LmsrIndexNotMinimal(s);
  }
}
