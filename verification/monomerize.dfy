/**
 * Seed-and-extend monomer detection (lib/src/monomerize.rs).
 *
 * A circular genome sequenced as a linear read often carries the start of
 * the circle again at its end. The monomerizer takes the last `seed_len`
 * bases as a seed, looks for the seed in the rest of the read and, for each
 * occurrence in ascending order, compares the read's prefix ending with that
 * occurrence against the suffix of the same length. The first occurrence
 * whose overlap is close enough marks where the first copy ends; the last
 * pass repeats the search on the shortened read until nothing more is found.
 */
module Monomerize {
  import opened Wrappers
  import opened Bytes
  import opened Dna
  import opened SeedMatch

  /** The minimum identity of an overlap: an `f64` in the source, an exact fraction in `[0, 1]` here. */
  type Identity = r: real | 0.0 <= r <= 1.0

  /** `MonomerizerBuilder`: every field may still be unset. */
  datatype Builder = Builder(overlapDist: Option<nat>, overlapMinIdentity: Option<Identity>, seedLen: Option<nat>)

  datatype BuildError =
    | BothLimitsSet
    | SeedLenOutOfRange(seedLen: nat)
    | SeedLenUnset

  /** `Monomerizer` (lib/src/monomerize.rs:8-17). */
  datatype Monomerizer = Monomerizer(overlapDist: Option<nat>, overlapMinIdentity: Option<Identity>, seedLen: nat)
  {
    /** What a successful `build` guarantees. */
    predicate Valid()
    {
      1 <= seedLen <= 63 && !(overlapDist.Some? && overlapMinIdentity.Some?)
    }
  }

  /** `Monomerizer::builder()`: nothing set yet. */
  const EmptyBuilder := Builder(None, None, None)

  // ---------------------------------------------------------------------------
  // Construction
  // ---------------------------------------------------------------------------

  /** `MonomerizerBuilder::validate`: the two limits exclude each other and a set seed length lies in `1..=63`. */
  function Validate(b: Builder): (r: Result<(), BuildError>)
    ensures r.Err? <==> (b.overlapDist.Some? && b.overlapMinIdentity.Some?)
                        || (b.seedLen.Some? && !(1 <= b.seedLen.value <= 63))
    ensures b.overlapDist.Some? && b.overlapMinIdentity.Some? ==> r == Err(BothLimitsSet)
    ensures r.Err? && r.error != BothLimitsSet ==> b.seedLen.Some? && r.error == SeedLenOutOfRange(b.seedLen.value)
  {
    if b.overlapDist.Some? && b.overlapMinIdentity.Some? then Err(BothLimitsSet)
    else if b.seedLen.Some? && !(1 <= b.seedLen.value <= 63) then Err(SeedLenOutOfRange(b.seedLen.value))
    else Ok(())
  }

  /**
   * `MonomerizerBuilder::build`: validation first, then the required seed
   * length; the two limits default to unset.
   */
  function Build(b: Builder): (r: Result<Monomerizer, BuildError>)
    ensures r.Ok? <==> Validate(b).Ok? && b.seedLen.Some?
    ensures r.Ok? ==> r.value.Valid()
    ensures r.Ok? ==> r.value == Monomerizer(b.overlapDist, b.overlapMinIdentity, b.seedLen.value)
    ensures Validate(b).Ok? && b.seedLen.None? ==> r == Err(SeedLenUnset)
  {
    match Validate(b)
    case Err(e) => Err(e)
    case Ok(_) =>
      if b.seedLen.None? then Err(SeedLenUnset)
      else Ok(Monomerizer(b.overlapDist, b.overlapMinIdentity, b.seedLen.value))
  }

  /** The validation tests (lib/src/monomerize.rs:390-414, 476-489). */
  lemma BuildFixtures()
    ensures Build(EmptyBuilder) == Err(SeedLenUnset)
    ensures Build(Builder(None, None, Some(100))) == Err(SeedLenOutOfRange(100))
    ensures Build(Builder(None, None, Some(0))) == Err(SeedLenOutOfRange(0))
    ensures Build(Builder(Some(1), Some(0.95), Some(4))) == Err(BothLimitsSet)
    ensures Build(Builder(Some(0), None, Some(4))) == Ok(Monomerizer(Some(0), None, 4))
  {
  }

  // ---------------------------------------------------------------------------
  // The overlap test
  // ---------------------------------------------------------------------------

  /** Scaling a length by an identity keeps it between 0 and the length. */
  lemma ScaleBounds(l: real, p: Identity)
    requires 0.0 <= l
    ensures 0.0 <= l * p <= l
  {
    assert l * (1.0 - p) >= 0.0;
  }

  /**
   * The largest number of mismatches allowed in an overlap of `len` bases:
   * with an identity `p`, `len - floor(len * p)`, so that at least
   * `floor(len * p)` bases must agree; otherwise `overlap_dist`, 0 when unset.
   */
  function MaxDist(m: Monomerizer, len: nat): (r: nat)
    ensures m.overlapMinIdentity.None? ==> r == m.overlapDist.GetOr(0)
    ensures m.overlapMinIdentity.Some? ==> r <= len
  {
    match m.overlapMinIdentity
    case Some(p) =>
      var x := len as real * p;
      ScaleBounds(len as real, p);
      len - x.Floor
    case None => m.overlapDist.GetOr(0)
  }

  /**
   * With a minimum identity, the allowed mismatches are what is left of the
   * window after rounding `len * identity` down: the window length minus the
   * largest whole number of bases at the required identity.
   */
  lemma MaxDistFloor(m: Monomerizer, len: nat)
    requires m.overlapMinIdentity.Some?
    ensures (len - MaxDist(m, len)) as real <= len as real * m.overlapMinIdentity.value < (len - MaxDist(m, len) + 1) as real
  {
  }

  /** The rounding tests (lib/src/monomerize.rs:445-474): an overlap of 19 bases. */
  lemma MaxDistRoundsDown(m: Monomerizer)
    ensures m.overlapMinIdentity == Some(0.95) ==> MaxDist(m, 19) == 1
    ensures m.overlapMinIdentity == Some(0.94) ==> MaxDist(m, 19) == 2
    ensures m.overlapMinIdentity == Some(0.90) ==> MaxDist(m, 19) == 2
    ensures m.overlapMinIdentity == Some(0.90) ==> MaxDist(m, 20) == 2
    ensures m.overlapMinIdentity == Some(0.95) ==> MaxDist(m, 20) == 1
  {
  }

  /**
   * What `first_monomer_end_index` needs of its inputs: whenever the seed
   * search runs, the seed is one `ShiftAnd` accepts (1 to 64 bytes).
   */
  predicate Searchable(m: Monomerizer, s: seq<Byte>)
  {
    |s| > m.seedLen ==> 0 < m.seedLen <= 64
  }

  /**
   * `b` ends a monomer of `s`: the seed (the last `seed_len` bytes) also
   * ends at `|s| - b`, and the prefix `s[..|s| - b]` differs from the suffix
   * `s[b..]` in at most `MaxDist` positions.
   */
  predicate IsMonomerEnd(m: Monomerizer, s: seq<Byte>, b: nat)
  {
    var n := |s|;
    var sl := m.seedLen;
    sl < n && sl <= b <= n - sl
    && s[n - b - sl..n - b] == s[n - sl..]
    && Hamming(s[b..], s[..n - b]) <= MaxDist(m, n - b)
  }

  /** Occurrence `occ` of the seed in `s[..n - seed_len]` passes the overlap test of the loop body. */
  predicate Qualifies(m: Monomerizer, s: seq<Byte>, occ: nat)
    requires |s| > m.seedLen
  {
    var n := |s|;
    var sl := m.seedLen;
    OccursAt(s[n - sl..], s[..n - sl], occ)
    && Hamming(s[n - (occ + sl)..], s[..occ + sl]) <= MaxDist(m, occ + sl)
  }

  /** Occurrence offsets and monomer ends are the same thing read from the two ends. */
  lemma QualifiesIsMonomerEnd(m: Monomerizer, s: seq<Byte>, occ: nat)
    requires |s| > m.seedLen
    ensures Qualifies(m, s, occ) <==> occ + 2 * m.seedLen <= |s| && IsMonomerEnd(m, s, |s| - occ - m.seedLen)
  {
    var n := |s|;
    var sl := m.seedLen;
    if occ + 2 * sl <= n {
      var b := n - occ - sl;
      assert n - b == occ + sl && n - (occ + sl) == b;
      assert s[..n - sl][occ..occ + sl] == s[n - b - sl..n - b];
      var occurs := s[n - b - sl..n - b] == s[n - sl..];
      var close := Hamming(s[b..], s[..n - b]) <= MaxDist(m, n - b);
      assert Qualifies(m, s, occ) == (occurs && close);
      assert IsMonomerEnd(m, s, b) == (occurs && close);
    } else {
      assert !OccursAt(s[n - sl..], s[..n - sl], occ);
    }
  }

  /** The first occurrence at or after `o` that passes the overlap test. */
  function FirstQualifying(m: Monomerizer, s: seq<Byte>, o: nat): (r: Option<nat>)
    requires |s| > m.seedLen
    ensures r.Some? ==> o <= r.value && Qualifies(m, s, r.value)
    ensures forall q :: o <= q && (r.None? || q < r.value) ==> !Qualifies(m, s, q)
    decreases |s| - o
  {
    if o + m.seedLen > |s| - m.seedLen then None
    else if Qualifies(m, s, o) then Some(o)
    else FirstQualifying(m, s, o + 1)
  }

  /**
   * `first_monomer_end_index`: `None` for a read no longer than the seed;
   * otherwise the largest monomer end, or `None` when there is none.
   */
  function FirstMonomerEnd(m: Monomerizer, s: seq<Byte>): (r: Option<nat>)
    requires Searchable(m, s)
    ensures |s| <= m.seedLen ==> r.None?
    ensures r.Some? ==> m.seedLen <= r.value <= |s| - m.seedLen
    ensures r.Some? ==> IsMonomerEnd(m, s, r.value)
  {
    if |s| <= m.seedLen then None
    else
      var n := |s|;
      var sl := m.seedLen;
      match FirstQualifying(m, s, 0)
      case None => None
      case Some(occ) =>
        QualifiesIsMonomerEnd(m, s, occ);
        Some(n - (occ + sl))
  }

  /**
   * Occurrences are visited in ascending order, so the boundary found is the
   * largest monomer end, and `None` means that there is none.
   */
  lemma FirstMonomerEndLargest(m: Monomerizer, s: seq<Byte>, b: nat)
    requires Searchable(m, s)
    requires IsMonomerEnd(m, s, b)
    ensures FirstMonomerEnd(m, s).Some?
    ensures b <= FirstMonomerEnd(m, s).value
  {
    QualifiesIsMonomerEnd(m, s, |s| - b - m.seedLen);
  }

  /** Every monomer end comes from a qualifying occurrence. */
  lemma MonomerEndsQualify(m: Monomerizer, s: seq<Byte>)
    requires |s| > m.seedLen
    ensures forall b :: IsMonomerEnd(m, s, b) ==> Qualifies(m, s, |s| - b - m.seedLen)
  {
    forall b | IsMonomerEnd(m, s, b)
      ensures Qualifies(m, s, |s| - b - m.seedLen)
    {
      QualifiesIsMonomerEnd(m, s, |s| - b - m.seedLen);
    }
  }

  /**
   * `first_monomer_end_index` with its loop over the seed occurrences in
   * ascending order and its early return (lib/src/monomerize.rs:48-96).
   */
  method FirstMonomerEndIndex(m: Monomerizer, s: seq<Byte>) returns (r: Option<nat>)
    requires Searchable(m, s)
    ensures r == FirstMonomerEnd(m, s)
  {
    var n := |s|;
    var sl := m.seedLen;
    if n <= sl {
      return None;
    }
    var seed := s[n - sl..];
    var occs := FindAll(seed, s[..n - sl]);
    var i := 0;
    while i < |occs|
      invariant i <= |occs|
      invariant forall t :: 0 <= t < i ==> !Qualifies(m, s, occs[t])
    {
      var occ := occs[i];
      LoopBodyTest(m, s, occs, i);
      var successorSeed := s[..occ + sl];
      var starterSeed := s[n - |successorSeed|..];
      var dist := Hamming(starterSeed, successorSeed);
      var maxDist := MaxDist(m, |successorSeed|);
      if dist <= maxDist {
        FirstQualifyingOccurrence(m, s, occs, i);
        return Some(n - |starterSeed|);
      }
      i := i + 1;
    }
    NoQualifyingOccurrence(m, s, occs);
    return None;
  }

  /** The test in the loop body of `first_monomer_end_index` is `Qualifies`. */
  lemma LoopBodyTest(m: Monomerizer, s: seq<Byte>, occs: seq<nat>, i: nat)
    requires |s| > m.seedLen && 0 < m.seedLen <= 64
    requires occs == FindAll(s[|s| - m.seedLen..], s[..|s| - m.seedLen])
    requires i < |occs|
    ensures occs[i] + m.seedLen <= |s|
    ensures var c := occs[i] + m.seedLen;
            Qualifies(m, s, occs[i]) <==> Hamming(s[|s| - c..], s[..c]) <= MaxDist(m, c)
  {
    assert occs[i] in occs;
  }

  /** An offset before the `i`-th occurrence either is no occurrence or is an earlier one, which fails. */
  lemma NotQualifyingBefore(m: Monomerizer, s: seq<Byte>, occs: seq<nat>, i: nat, p: nat)
    requires |s| > m.seedLen && 0 < m.seedLen <= 64
    requires occs == FindAll(s[|s| - m.seedLen..], s[..|s| - m.seedLen])
    requires i < |occs| && p < occs[i]
    requires forall t :: 0 <= t < i ==> !Qualifies(m, s, occs[t])
    ensures !Qualifies(m, s, p)
  {
    var n := |s|;
    var sl := m.seedLen;
    if OccursAt(s[n - sl..], s[..n - sl], p) {
      var t :| 0 <= t < |occs| && occs[t] == p;
      var first, other := occs[i], occs[t];
      assert i < t ==> first < other;
    }
  }

  /** The scan from 0 stops at the first offset that passes. */
  lemma FirstQualifyingIs(m: Monomerizer, s: seq<Byte>, q: nat)
    requires |s| > m.seedLen
    requires Qualifies(m, s, q) && forall p: nat :: p < q ==> !Qualifies(m, s, p)
    ensures FirstQualifying(m, s, 0) == Some(q)
  {
  }

  /** The occurrence at `i` is the first of `find_all` to pass, so it gives the first monomer end. */
  lemma FirstQualifyingOccurrence(m: Monomerizer, s: seq<Byte>, occs: seq<nat>, i: nat)
    requires |s| > m.seedLen && 0 < m.seedLen <= 64
    requires occs == FindAll(s[|s| - m.seedLen..], s[..|s| - m.seedLen])
    requires i < |occs| && Qualifies(m, s, occs[i])
    requires forall t :: 0 <= t < i ==> !Qualifies(m, s, occs[t])
    ensures FirstMonomerEnd(m, s) == Some(|s| - (occs[i] + m.seedLen))
  {
    forall p: nat | p < occs[i]
      ensures !Qualifies(m, s, p)
    {
      NotQualifyingBefore(m, s, occs, i, p);
    }
    FirstQualifyingIs(m, s, occs[i]);
  }

  /** When no occurrence of `find_all` passes, there is no monomer end. */
  lemma NoQualifyingOccurrence(m: Monomerizer, s: seq<Byte>, occs: seq<nat>)
    requires |s| > m.seedLen && 0 < m.seedLen <= 64
    requires occs == FindAll(s[|s| - m.seedLen..], s[..|s| - m.seedLen])
    requires forall t :: 0 <= t < |occs| ==> !Qualifies(m, s, occs[t])
    ensures FirstMonomerEnd(m, s) == None
  {
    var n := |s|;
    var sl := m.seedLen;
    forall p | true
      ensures !Qualifies(m, s, p)
    {
      if OccursAt(s[n - sl..], s[..n - sl], p) {
        var t :| 0 <= t < |occs| && occs[t] == p;
      }
    }
  }

  // ---------------------------------------------------------------------------
  // Repeated passes
  // ---------------------------------------------------------------------------

  /** The `while let` loop of `last_monomer_end_index` from the boundary `b`. */
  function LastFrom(m: Monomerizer, s: seq<Byte>, b: nat): (r: nat)
    requires b <= |s| && Searchable(m, s)
    ensures r <= b
    ensures m.seedLen <= b ==> m.seedLen <= r
    ensures FirstMonomerEnd(m, s[..r]).None?
    decreases b
  {
    match FirstMonomerEnd(m, s[..b])
    case None => b
    case Some(b2) => LastFrom(m, s, b2)
  }

  /**
   * `last_monomer_end_index`: shrink the read to its first monomer until no
   * monomer end is left in it.
   */
  function LastMonomerEnd(m: Monomerizer, s: seq<Byte>): (r: Option<nat>)
    requires Searchable(m, s)
    ensures r.None? <==> FirstMonomerEnd(m, s).None?
    ensures r.Some? ==> m.seedLen <= r.value <= FirstMonomerEnd(m, s).value
    ensures r.Some? ==> FirstMonomerEnd(m, s[..r.value]).None?
  {
    match FirstMonomerEnd(m, s)
    case None => None
    case Some(b) => Some(LastFrom(m, s, b))
  }

  /** `last_monomer_end_index` with its `while let` loop (lib/src/monomerize.rs:97-120). */
  method LastMonomerEndIndex(m: Monomerizer, s: seq<Byte>) returns (r: Option<nat>)
    requires Searchable(m, s)
    ensures r == LastMonomerEnd(m, s)
  {
    var monomerized: Option<nat> := FirstMonomerEndIndex(m, s);
    while monomerized.Some?
      invariant monomerized.Some? ==> monomerized.value <= |s|
      invariant LastMonomerEnd(m, s) == if monomerized.Some? then Some(LastFrom(m, s, monomerized.value)) else None
      decreases if monomerized.Some? then monomerized.value else 0
    {
      var monomerIndex := monomerized.value;
      var newMonomer := FirstMonomerEndIndex(m, s[..monomerIndex]);
      if newMonomer.None? {
        break;
      }
      monomerized := newMonomer;
    }
    return monomerized;
  }

  /**
   * `last_monomer_end_index_sensitive`: the monomer of the plain pass, then
   * one pass on its reverse complement. A boundary found there is the result,
   * since `m - (m - index)` is `index`.
   */
  function LastMonomerEndSensitive(m: Monomerizer, s: seq<Byte>): (r: Option<nat>)
    requires Searchable(m, s)
    ensures r.None? <==> LastMonomerEnd(m, s).None? && FirstMonomerEnd(m, RevComp(s)).None?
    ensures r.Some? ==> m.seedLen <= r.value <= LastMonomerEnd(m, s).GetOr(|s|)
  {
    var monomerIndex := LastMonomerEnd(m, s);
    var cut := monomerIndex.GetOr(|s|);
    var monomer := s[..cut];
    assert monomerIndex.None? ==> monomer == s;
    assert |RevComp(monomer)| == |monomer| == cut;
    match FirstMonomerEnd(m, RevComp(monomer))
    case None => monomerIndex
    case Some(index) =>
      assert m.seedLen <= index <= cut;
      Some(cut - (|monomer| - index))
  }

  /**
   * A boundary that the sensitive pass moves comes from the pass on the
   * reverse complement of the monomer: it is a monomer end there.
   */
  lemma SensitiveBoundary(m: Monomerizer, s: seq<Byte>)
    requires Searchable(m, s)
    ensures var r := LastMonomerEndSensitive(m, s);
            r.Some? && r != LastMonomerEnd(m, s) ==>
              IsMonomerEnd(m, RevComp(s[..LastMonomerEnd(m, s).GetOr(|s|)]), r.value)
  {
    var monomer := s[..LastMonomerEnd(m, s).GetOr(|s|)];
    match FirstMonomerEnd(m, RevComp(monomer))
    case None =>
    case Some(index) =>
      assert LastMonomerEndSensitive(m, s) == Some(index);
  }

  // ---------------------------------------------------------------------------
  // Slicing
  // ---------------------------------------------------------------------------

  /** `monomerize`: the read cut at its last monomer end, or the whole read. */
  function Monomerize(m: Monomerizer, s: seq<Byte>): (r: seq<Byte>)
    requires Searchable(m, s)
    ensures r <= s
    ensures |r| < |s| <==> LastMonomerEnd(m, s).Some?
    ensures FirstMonomerEnd(m, r).None?
  {
    match LastMonomerEnd(m, s)
    case None => s
    case Some(end) => s[..end]
  }

  /** A monomer has no monomer end left: monomerizing again changes nothing. */
  lemma MonomerizeIdempotent(m: Monomerizer, s: seq<Byte>)
    requires Searchable(m, s)
    ensures Monomerize(m, Monomerize(m, s)) == Monomerize(m, s)
  {
    var r := Monomerize(m, s);
    assert LastMonomerEnd(m, r).None?;
  }

  /** `monomerize_sensitive`: the read cut at the boundary of the sensitive pass. */
  function MonomerizeSensitive(m: Monomerizer, s: seq<Byte>): (r: seq<Byte>)
    requires Searchable(m, s)
    ensures r <= s
    ensures |r| <= |Monomerize(m, s)|
    ensures r == s <==> LastMonomerEndSensitive(m, s).None?
  {
    match LastMonomerEndSensitive(m, s)
    case None => s
    case Some(end) => s[..end]
  }

  // ---------------------------------------------------------------------------
  // Fixtures (lib/src/monomerize.rs:177-199, 314-327)
  // ---------------------------------------------------------------------------

  /** "ATGCATGC" with a seed of 4 or 2 and any distance limit gives "ATGC". */
  lemma MonomerizeIdenticalRepeat(m: Monomerizer, s: seq<Byte>)
    requires s == "ATGCATGC"
    requires m.overlapMinIdentity.None? && (m.seedLen == 4 || m.seedLen == 2)
    ensures Monomerize(m, s) == "ATGC"
  {
    assert s[4..] == s[..4];
    HammingZero(s[4..], s[..4]);
    if m.seedLen == 4 {
      assert Qualifies(m, s, 0);
      assert FirstQualifying(m, s, 0) == Some(0);
    } else {
      assert s[..6][2..4] == s[6..];
      assert Qualifies(m, s, 2);
      assert !OccursAt(s[6..], s[..6], 0) by { assert s[6..][0] != s[..6][0]; }
      assert !OccursAt(s[6..], s[..6], 1) by { assert s[6..][0] != s[..6][1]; }
      assert FirstQualifying(m, s, 0) == Some(2);
      var t := s[..4];
      assert !OccursAt(t[2..], t[..2], 0) by { assert t[2..][0] != t[..2][0]; }
      assert FirstQualifying(m, t, 0) == None;
    }
    assert FirstMonomerEnd(m, s) == Some(4);
    assert FirstMonomerEnd(m, s[..4]) == None;
  }

  lemma SeedRepeatedFirstPassSeed(s: seq<Byte>)
    requires s == "TGCCAATGCATGCCAATGC"
    ensures !OccursAt(s[15..], s[..15], 0)
    ensures !OccursAt(s[15..], s[..15], 1)
    ensures !OccursAt(s[15..], s[..15], 2)
    ensures !OccursAt(s[15..], s[..15], 3)
    ensures !OccursAt(s[15..], s[..15], 4)
    ensures s[10..] == s[..9]
    ensures OccursAt(s[15..], s[..15], 5)
  {
    assert s[0] != s[15];
    assert s[1] != s[15];
    assert s[2] != s[15];
    assert s[3] != s[15];
    assert s[5] != s[16];
  }

  /** The first pass skips the repeated seed at 9 and stops at the one at 5. */
  lemma SeedRepeatedFirstPass(m: Monomerizer, s: seq<Byte>)
    requires s == "TGCCAATGCATGCCAATGC"
    requires m == Monomerizer(Some(0), None, 4)
    ensures FirstMonomerEnd(m, s) == Some(10)
  {
    SeedRepeatedFirstPassSeed(s);
    HammingZero(s[10..], s[..9]);
    assert Qualifies(m, s, 5);
    assert FirstQualifying(m, s, 5) == Some(5);
    assert FirstQualifying(m, s, 4) == Some(5);
    assert FirstQualifying(m, s, 3) == Some(5);
    assert FirstQualifying(m, s, 2) == Some(5);
    assert FirstQualifying(m, s, 1) == Some(5);
    assert FirstQualifying(m, s, 0) == Some(5);
  }

  lemma SeedRepeatedSecondPassSeed(s: seq<Byte>)
    requires s == "TGCCAATGCA"
    ensures !OccursAt(s[6..], s[..6], 0)
    ensures !OccursAt(s[6..], s[..6], 1)
    ensures !OccursAt(s[6..], s[..6], 2)
  {
    assert s[3] != s[9];
    assert s[1] != s[6];
    assert s[2] != s[6];
  }

  /** Nothing is left to cut from the monomer. */
  lemma SeedRepeatedSecondPass(m: Monomerizer, s: seq<Byte>)
    requires s == "TGCCAATGCA"
    requires m == Monomerizer(Some(0), None, 4)
    ensures FirstMonomerEnd(m, s) == None
  {
    SeedRepeatedSecondPassSeed(s);
    assert FirstQualifying(m, s, 3) == None;
    assert FirstQualifying(m, s, 2) == None;
    assert FirstQualifying(m, s, 1) == None;
    assert FirstQualifying(m, s, 0) == None;
  }

  /** A seed repeated inside the monomer is skipped when its overlap fails (lib/src/monomerize.rs:314-327). */
  lemma MonomerizeSeedRepeated(m: Monomerizer, s: seq<Byte>)
    requires s == "TGCCAATGCATGCCAATGC"
    requires m == Monomerizer(Some(0), None, 4)
    ensures Monomerize(m, s) == "TGCCAATGCA"
  {
    SeedRepeatedFirstPass(m, s);
    assert s[..10] == "TGCCAATGCA";
    SeedRepeatedSecondPass(m, s[..10]);
    assert LastFrom(m, s, 10) == 10;
  }

  lemma TrimerFirstPassSeed(s: seq<Byte>)
    requires s == "AAAAATTTTTAAAAATTTTTAAAAATTTTT"
    ensures !OccursAt(s[25..], s[..25], 0)
    ensures !OccursAt(s[25..], s[..25], 1)
    ensures !OccursAt(s[25..], s[..25], 2)
    ensures !OccursAt(s[25..], s[..25], 3)
    ensures !OccursAt(s[25..], s[..25], 4)
    ensures OccursAt(s[25..], s[..25], 5)
  {
    assert s[0] != s[25];
    assert s[1] != s[25];
    assert s[2] != s[25];
    assert s[3] != s[25];
    assert s[4] != s[25];
    assert s[5] == s[25] && s[6] == s[26] && s[7] == s[27] && s[8] == s[28] && s[9] == s[29];
    assert s[..25][5..10] == s[25..];
  }

  /** The prefix and the suffix of ten bases agree. */
  lemma TrimerFirstPassWindow(s: seq<Byte>)
    requires s == "AAAAATTTTTAAAAATTTTTAAAAATTTTT"
    ensures s[20..] == s[..10]
  {
    assert s[20..] == "AAAAATTTTT" == s[..10];
  }

  /** The first pass on three copies cuts off the last copy. */
  lemma TrimerFirstPass(m: Monomerizer, s: seq<Byte>)
    requires s == "AAAAATTTTTAAAAATTTTTAAAAATTTTT"
    requires m.overlapMinIdentity.None? && m.seedLen == 5
    ensures FirstMonomerEnd(m, s) == Some(20)
  {
    TrimerFirstPassSeed(s);
    TrimerFirstPassWindow(s);
    HammingZero(s[20..], s[..10]);
    assert Qualifies(m, s, 5);
    assert FirstQualifying(m, s, 5) == Some(5);
    assert FirstQualifying(m, s, 4) == Some(5);
    assert FirstQualifying(m, s, 3) == Some(5);
    assert FirstQualifying(m, s, 2) == Some(5);
    assert FirstQualifying(m, s, 1) == Some(5);
    assert FirstQualifying(m, s, 0) == Some(5);
  }

  lemma DimerFirstPassSeed(s: seq<Byte>)
    requires s == "AAAAATTTTTAAAAATTTTT"
    ensures !OccursAt(s[15..], s[..15], 0)
    ensures !OccursAt(s[15..], s[..15], 1)
    ensures !OccursAt(s[15..], s[..15], 2)
    ensures !OccursAt(s[15..], s[..15], 3)
    ensures !OccursAt(s[15..], s[..15], 4)
    ensures s[10..] == s[..10]
    ensures OccursAt(s[15..], s[..15], 5)
  {
    assert s[0] != s[15];
    assert s[1] != s[15];
    assert s[2] != s[15];
    assert s[3] != s[15];
    assert s[4] != s[15];
  }

  /** The pass on two copies cuts off the second. */
  lemma DimerFirstPass(m: Monomerizer, s: seq<Byte>)
    requires s == "AAAAATTTTTAAAAATTTTT"
    requires m.overlapMinIdentity.None? && m.seedLen == 5
    ensures FirstMonomerEnd(m, s) == Some(10)
  {
    DimerFirstPassSeed(s);
    HammingZero(s[10..], s[..10]);
    assert Qualifies(m, s, 5);
    assert FirstQualifying(m, s, 5) == Some(5);
    assert FirstQualifying(m, s, 4) == Some(5);
    assert FirstQualifying(m, s, 3) == Some(5);
    assert FirstQualifying(m, s, 2) == Some(5);
    assert FirstQualifying(m, s, 1) == Some(5);
    assert FirstQualifying(m, s, 0) == Some(5);
  }

  lemma MonomerFirstPassSeed(s: seq<Byte>)
    requires s == "AAAAATTTTT"
    ensures !OccursAt(s[5..], s[..5], 0)
  {
    assert s[0] != s[5];
  }

  /** Nothing is left to cut from one copy. */
  lemma MonomerFirstPass(m: Monomerizer, s: seq<Byte>)
    requires s == "AAAAATTTTT"
    requires m.overlapMinIdentity.None? && m.seedLen == 5
    ensures FirstMonomerEnd(m, s) == None
  {
    MonomerFirstPassSeed(s);
    assert FirstQualifying(m, s, 1) == None;
    assert FirstQualifying(m, s, 0) == None;
  }

  /** Three identical copies come down to one (lib/src/monomerize.rs:250-264), here with a seed of 5. */
  lemma MonomerizeIdenticalTrimer(m: Monomerizer, s: seq<Byte>)
    requires s == "AAAAATTTTTAAAAATTTTTAAAAATTTTT"
    requires m.overlapMinIdentity.None? && m.seedLen == 5
    ensures Monomerize(m, s) == "AAAAATTTTT"
  {
    TrimerFirstPass(m, s);
    assert s[..20] == "AAAAATTTTTAAAAATTTTT";
    DimerFirstPass(m, s[..20]);
    assert s[..10] == "AAAAATTTTT";
    MonomerFirstPass(m, s[..10]);
    assert LastFrom(m, s, 10) == 10;
    assert LastFrom(m, s, 20) == 10;
  }
}
