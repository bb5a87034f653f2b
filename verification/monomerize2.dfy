/**
 * The earlier monomerizer (lib/src/monomerize2.rs). It takes the same seed
 * from the end of the read, but visits every occurrence, moves the start of
 * the compared window to the last accepted occurrence, and finally keeps
 * what follows the last accepted occurrence: a suffix of the read.
 */
module Monomerize2 {
  import opened Wrappers
  import opened Bytes
  import opened SeedMatch
  import M = Monomerize

  /** `MonomerizerBuilder::validate` of this variant: the seed may be up to 64 bytes. */
  function Validate(b: M.Builder): (r: Result<(), M.BuildError>)
    ensures r.Err? <==> (b.overlapDist.Some? && b.overlapMinIdentity.Some?)
                        || (b.seedLen.Some? && !(1 <= b.seedLen.value <= 64))
    ensures b.overlapDist.Some? && b.overlapMinIdentity.Some? ==> r == Err(M.BothLimitsSet)
    ensures r.Err? && r.error != M.BothLimitsSet ==> b.seedLen.Some? && r.error == M.SeedLenOutOfRange(b.seedLen.value)
  {
    if b.overlapDist.Some? && b.overlapMinIdentity.Some? then Err(M.BothLimitsSet)
    else if b.seedLen.Some? && !(1 <= b.seedLen.value <= 64) then Err(M.SeedLenOutOfRange(b.seedLen.value))
    else Ok(())
  }

  /** `MonomerizerBuilder::build` of this variant. */
  function Build(b: M.Builder): (r: Result<M.Monomerizer, M.BuildError>)
    ensures r.Ok? <==> Validate(b).Ok? && b.seedLen.Some?
    ensures r.Ok? ==> 1 <= r.value.seedLen <= 64
    ensures r.Ok? ==> r.value == M.Monomerizer(b.overlapDist, b.overlapMinIdentity, b.seedLen.value)
    ensures Validate(b).Ok? && b.seedLen.None? ==> r == Err(M.SeedLenUnset)
  {
    match Validate(b)
    case Err(e) => Err(e)
    case Ok(_) =>
      if b.seedLen.None? then Err(M.SeedLenUnset)
      else Ok(M.Monomerizer(b.overlapDist, b.overlapMinIdentity, b.seedLen.value))
  }

  /** The validation tests (lib/src/monomerize2.rs:266-290): 64 is accepted here, 100 and 0 are not. */
  lemma BuildFixtures()
    ensures Build(M.EmptyBuilder) == Err(M.SeedLenUnset)
    ensures Build(M.Builder(None, None, Some(100))) == Err(M.SeedLenOutOfRange(100))
    ensures Build(M.Builder(None, None, Some(0))) == Err(M.SeedLenOutOfRange(0))
    ensures Build(M.Builder(None, None, Some(64))) == Ok(M.Monomerizer(None, None, 64))
    ensures M.Build(M.Builder(None, None, Some(64))) == Err(M.SeedLenOutOfRange(64))
  {
  }

  /** Whenever the seed search runs (the read is at least as long as the seed), `ShiftAnd` accepts the seed. */
  predicate Searchable(m: M.Monomerizer, s: seq<Byte>)
  {
    |s| >= m.seedLen ==> 0 < m.seedLen <= 64
  }

  /** Ascending offsets at which a seed fits in `s[..|s| - seed_len]`, as `find_all` yields them. */
  predicate SeedOffsets(m: M.Monomerizer, s: seq<Byte>, occs: seq<nat>)
  {
    StrictlyAscending(occs) && forall t :: 0 <= t < |occs| ==> occs[t] + 2 * m.seedLen <= |s|
  }

  /**
   * The test of the loop body: the window from the last accepted occurrence
   * (or 0) to the end of the seed at `occ` is within `MaxDist` of the suffix
   * of the same length.
   */
  predicate Accepts(m: M.Monomerizer, s: seq<Byte>, lastMatch: Option<nat>, occ: nat)
    requires lastMatch.GetOr(0) <= occ + m.seedLen <= |s|
  {
    var window := s[lastMatch.GetOr(0)..occ + m.seedLen];
    Hamming(window, s[|s| - |window|..]) <= M.MaxDist(m, |window|)
  }

  /** `last_match` after the loop has visited `occs`, in order. */
  function LastMatchOf(m: M.Monomerizer, s: seq<Byte>, occs: seq<nat>): (r: Option<nat>)
    requires SeedOffsets(m, s, occs)
    ensures r.Some? ==> r.value in occs
  {
    if |occs| == 0 then None
    else
      var init := occs[..|occs| - 1];
      var occ := occs[|occs| - 1];
      var prev := LastMatchOf(m, s, init);
      assert prev.Some? ==> prev.value < occ by {
        if prev.Some? {
          var t :| 0 <= t < |init| && init[t] == prev.value;
        }
      }
      if Accepts(m, s, prev, occ) then Some(occ) else prev
  }

  /** One more visited occurrence: `last_match` moves to it exactly when it passes. */
  lemma LastMatchOfStep(m: M.Monomerizer, s: seq<Byte>, occs: seq<nat>, i: nat)
    requires SeedOffsets(m, s, occs) && i < |occs|
    ensures SeedOffsets(m, s, occs[..i]) && SeedOffsets(m, s, occs[..i + 1])
    ensures LastMatchOf(m, s, occs[..i]).Some? ==> LastMatchOf(m, s, occs[..i]).value < occs[i]
    ensures LastMatchOf(m, s, occs[..i + 1]) ==
              if Accepts(m, s, LastMatchOf(m, s, occs[..i]), occs[i]) then Some(occs[i])
              else LastMatchOf(m, s, occs[..i])
  {
    assert occs[..i + 1][..i] == occs[..i];
    assert occs[..i + 1][i] == occs[i];
    var prev := LastMatchOf(m, s, occs[..i]);
    if prev.Some? {
      var t :| 0 <= t < i && occs[..i][t] == prev.value;
      assert occs[t] < occs[i];
    }
  }

  /**
   * `last_match` ends as the greatest occurrence that passed: no later
   * occurrence passes against it, and with `None` no occurrence passed at all.
   */
  lemma {:induction false} LastMatchOfFinal(m: M.Monomerizer, s: seq<Byte>, occs: seq<nat>, t: nat)
    requires SeedOffsets(m, s, occs) && t < |occs|
    ensures LastMatchOf(m, s, occs).None? ==> !Accepts(m, s, None, occs[t])
    ensures LastMatchOf(m, s, occs).Some? && LastMatchOf(m, s, occs).value < occs[t] ==>
              !Accepts(m, s, LastMatchOf(m, s, occs), occs[t])
  {
    var i := |occs| - 1;
    LastMatchOfStep(m, s, occs, i);
    assert occs[..i + 1] == occs;
    if t < i {
      LastMatchOfFinal(m, s, occs[..i], t);
      assert occs[..i][t] == occs[t];
    }
  }

  /** The occurrence at `i` passed when the loop visited it, against the `last_match` of that moment. */
  predicate PassedAt(m: M.Monomerizer, s: seq<Byte>, occs: seq<nat>, i: nat)
    requires SeedOffsets(m, s, occs) && i < |occs|
  {
    assert occs[i] + 2 * m.seedLen <= |s|;
    && SeedOffsets(m, s, occs[..i])
    && LastMatchOf(m, s, occs[..i]).GetOr(0) <= occs[i]
    && Accepts(m, s, LastMatchOf(m, s, occs[..i]), occs[i])
  }

  /** Whether an occurrence passed does not depend on the occurrences visited after it. */
  lemma PassedAtPrefix(m: M.Monomerizer, s: seq<Byte>, occs: seq<nat>, i: nat, j: nat)
    requires SeedOffsets(m, s, occs) && j < i <= |occs|
    requires SeedOffsets(m, s, occs[..i]) && PassedAt(m, s, occs[..i], j)
    ensures PassedAt(m, s, occs, j)
  {
    assert occs[..i][..j] == occs[..j];
    assert occs[..i][j] == occs[j];
  }

  /**
   * The other half: a final `last_match` is an occurrence that passed when the
   * loop visited it.
   */
  lemma {:induction false} LastMatchOfPassed(m: M.Monomerizer, s: seq<Byte>, occs: seq<nat>)
    requires SeedOffsets(m, s, occs)
    ensures LastMatchOf(m, s, occs).Some? ==>
              exists i :: 0 <= i < |occs| && occs[i] == LastMatchOf(m, s, occs).value && PassedAt(m, s, occs, i)
  {
    if |occs| > 0 {
      var i := |occs| - 1;
      LastMatchOfStep(m, s, occs, i);
      assert occs[..i + 1] == occs;
      var prev := LastMatchOf(m, s, occs[..i]);
      if Accepts(m, s, prev, occs[i]) {
        assert PassedAt(m, s, occs, i);
      } else if prev.Some? {
        LastMatchOfPassed(m, s, occs[..i]);
        var j :| 0 <= j < i && occs[..i][j] == prev.value && PassedAt(m, s, occs[..i], j);
        PassedAtPrefix(m, s, occs, i, j);
        assert occs[j] == prev.value;
      }
    }
  }

  /** The loop body computes `Accepts` on the window it slices. */
  lemma AcceptsTest(m: M.Monomerizer, s: seq<Byte>, lastMatch: Option<nat>, occ: nat, window: seq<Byte>, extension: seq<Byte>)
    requires lastMatch.GetOr(0) <= occ + m.seedLen <= |s|
    requires window == s[lastMatch.GetOr(0)..occ + m.seedLen] && extension == s[|s| - |window|..]
    ensures Accepts(m, s, lastMatch, occ) <==> Hamming(window, extension) <= M.MaxDist(m, |window|)
  {
  }

  /** The occurrences `find_all` yields fit before the seed. */
  lemma FindAllOffsets(m: M.Monomerizer, s: seq<Byte>)
    requires 0 < m.seedLen <= 64 && m.seedLen <= |s|
    ensures SeedOffsets(m, s, FindAll(s[|s| - m.seedLen..], s[..|s| - m.seedLen]))
  {
    var occs := FindAll(s[|s| - m.seedLen..], s[..|s| - m.seedLen]);
    forall t | 0 <= t < |occs|
      ensures occs[t] + 2 * m.seedLen <= |s|
    {
      assert occs[t] in occs;
    }
  }

  /** `last_match` at the end of `monomerize`. */
  function LastMatch(m: M.Monomerizer, s: seq<Byte>): (r: Option<nat>)
    requires Searchable(m, s) && m.seedLen <= |s|
    ensures r.Some? ==> OccursAt(s[|s| - m.seedLen..], s[..|s| - m.seedLen], r.value)
  {
    var occs := FindAll(s[|s| - m.seedLen..], s[..|s| - m.seedLen]);
    FindAllOffsets(m, s);
    LastMatchOf(m, s, occs)
  }

  /** `LastMatch` is the loop's `last_match` after every occurrence `find_all` yields. */
  lemma LastMatchAfterAll(m: M.Monomerizer, s: seq<Byte>)
    requires Searchable(m, s) && m.seedLen <= |s|
    ensures SeedOffsets(m, s, FindAll(s[|s| - m.seedLen..], s[..|s| - m.seedLen]))
    ensures LastMatch(m, s) == LastMatchOf(m, s, FindAll(s[|s| - m.seedLen..], s[..|s| - m.seedLen]))
  {
    FindAllOffsets(m, s);
  }

  /**
   * Where `monomerize` cuts the read: just after its last accepted seed
   * occurrence, or at 0 when none was accepted.
   */
  function Cut(m: M.Monomerizer, s: seq<Byte>): (c: nat)
    requires Searchable(m, s)
    ensures c <= |s|
    ensures |s| < m.seedLen ==> c == 0
    ensures 0 < c ==> m.seedLen <= c && OccursAt(s[|s| - m.seedLen..], s[..|s| - m.seedLen], c - m.seedLen)
  {
    if |s| < m.seedLen then 0
    else
      match LastMatch(m, s)
      case Some(lastMatch) => lastMatch + m.seedLen
      case None => 0
  }

  /** What `monomerize` returns: the read after the cut, a suffix of the read. */
  function MonomerSuffix(m: M.Monomerizer, s: seq<Byte>): seq<Byte>
    requires Searchable(m, s)
  {
    s[Cut(m, s)..]
  }

  /**
   * The result is a suffix of the read; a read shorter than the seed comes
   * back whole; and a shorter result starts right after a copy of the seed.
   */
  lemma MonomerSuffixIsSuffix(m: M.Monomerizer, s: seq<Byte>)
    requires Searchable(m, s)
    ensures |MonomerSuffix(m, s)| <= |s| && MonomerSuffix(m, s) == s[|s| - |MonomerSuffix(m, s)|..]
    ensures |s| < m.seedLen ==> MonomerSuffix(m, s) == s
    ensures var c := |s| - |MonomerSuffix(m, s)|;
            0 < c ==> m.seedLen <= c && s[c - m.seedLen..c] == s[|s| - m.seedLen..]
  {
    var c := Cut(m, s);
    assert |s| - |MonomerSuffix(m, s)| == c;
  }

  /** Once the read is at least a seed long, the result is decided by `LastMatch` alone. */
  lemma MonomerSuffixOfLastMatch(m: M.Monomerizer, s: seq<Byte>)
    requires Searchable(m, s) && m.seedLen <= |s|
    ensures LastMatch(m, s).Some? ==> LastMatch(m, s).value + m.seedLen <= |s|
    ensures MonomerSuffix(m, s) == match LastMatch(m, s)
                                   case Some(lm) => s[lm + m.seedLen..]
                                   case None => s
  {
  }

  /**
   * The `for` loop of `monomerize` (lib/src/monomerize2.rs:67-90): visits the
   * seed occurrences in order and returns the final `last_match`.
   */
  method VisitOccurrences(m: M.Monomerizer, s: seq<Byte>, occs: seq<nat>) returns (lastMatch: Option<nat>)
    requires SeedOffsets(m, s, occs)
    ensures lastMatch == LastMatchOf(m, s, occs)
  {
    var seedLen := m.seedLen;
    lastMatch := None;
    for i := 0 to |occs|
      invariant SeedOffsets(m, s, occs[..i])
      invariant lastMatch == LastMatchOf(m, s, occs[..i])
    {
      var occ := occs[i];
      LastMatchOfStep(m, s, occs, i);
      var potentialOverlap := s[lastMatch.GetOr(0)..occ + seedLen];
      var seedExtension := s[|s| - |potentialOverlap|..];
      var dist := Hamming(potentialOverlap, seedExtension);
      var maxDist := M.MaxDist(m, |potentialOverlap|);
      AcceptsTest(m, s, lastMatch, occ, potentialOverlap, seedExtension);
      if dist <= maxDist {
        lastMatch := Some(occ);
      }
    }
    assert occs[..|occs|] == occs;
  }

  /** `monomerize` (lib/src/monomerize2.rs:47-96). */
  method Monomerize(m: M.Monomerizer, s: seq<Byte>) returns (r: seq<Byte>)
    requires Searchable(m, s)
    ensures r == MonomerSuffix(m, s)
  {
    var seedLen := m.seedLen;
    if |s| < seedLen {
      return s;
    }
    var seed := s[|s| - seedLen..];
    var text := s[..|s| - seedLen];
    var occs := FindAll(seed, text);
    LastMatchAfterAll(m, s);
    var lastMatch := VisitOccurrences(m, s, occs);
    MonomerSuffixOfLastMatch(m, s);
    match lastMatch
    case Some(lm) =>
      return s[lm + seedLen..];
    case None =>
      return s;
  }

  // ---------------------------------------------------------------------------
  // Fixtures (lib/src/monomerize2.rs:116-127, 235-248)
  // ---------------------------------------------------------------------------

  /** In "ATGCATGC" the seed "GC" occurs once in "ATGCAT", at 2, and the window before it repeats. */
  lemma IdenticalRepeatSeed(s: seq<Byte>)
    requires s == "ATGCATGC"
    ensures forall q: nat :: OccursAt(s[6..], s[..6], q) <==> q == 2
    ensures s[0..4] == s[4..]
  {
    assert s[0] != s[6] && s[1] != s[6] && s[3] != s[6] && s[4] != s[6];
    assert s[0] == s[4] && s[1] == s[5] && s[2] == s[6] && s[3] == s[7];
    forall q: nat ensures OccursAt(s[6..], s[..6], q) <==> q == 2 {
      if q + 2 <= 6 {
        assert s[..6][q..q + 2][0] == s[q];
      }
    }
  }

  /** "ATGCATGC" with a seed of 2 and a distance of 1 gives "ATGC" (lib/src/monomerize2.rs:116-127). */
  lemma IdenticalRepeat(m: M.Monomerizer, s: seq<Byte>)
    requires s == "ATGCATGC"
    requires m == M.Monomerizer(Some(1), None, 2)
    ensures MonomerSuffix(m, s) == "ATGC"
  {
    IdenticalRepeatSeed(s);
    FindAllSingle(s[6..], s[..6], 2);
    var occs := FindAll(s[6..], s[..6]);
    assert occs[..0] == [];
    assert occs[..1] == occs;
    HammingZero(s[0..4], s[4..]);
    assert Accepts(m, s, None, 2);
    assert LastMatchOf(m, s, occs) == Some(2);
  }

  /** In twelve T then ten A, the seed of ten A does not occur in the twelve T. */
  lemma NoOverlapAtAllSeed(s: seq<Byte>)
    requires s == "TTTTTTTTTTTTAAAAAAAAAA"
    ensures forall q: nat :: !OccursAt(s[12..], s[..12], q)
  {
    assert s[0] != s[12] && s[1] != s[12] && s[2] != s[12];
    forall q: nat ensures !OccursAt(s[12..], s[..12], q) {
      if q + 10 <= 12 {
        assert s[..12][q..q + 10][0] == s[q];
      }
    }
  }

  /** With no copy of the seed the read is returned whole (lib/src/monomerize2.rs:104-115). */
  lemma NoOverlapAtAll(m: M.Monomerizer, s: seq<Byte>)
    requires s == "TTTTTTTTTTTTAAAAAAAAAA"
    requires m == M.Monomerizer(Some(1), None, 10)
    ensures MonomerSuffix(m, s) == s
  {
    NoOverlapAtAllSeed(s);
    FindAllNone(s[12..], s[..12]);
  }

  /** In "TGCCAATGCATGCCAATGC" the seed "ATGC" occurs in the text at 5 and 9 and nowhere else. */
  lemma SeedRepeatedSeed(s: seq<Byte>)
    requires s == "TGCCAATGCATGCCAATGC"
    ensures forall q: nat :: OccursAt(s[15..], s[..15], q) <==> q == 5 || q == 9
  {
    assert s[0] != s[15] && s[1] != s[15] && s[2] != s[15] && s[3] != s[15];
    assert s[6] != s[15] && s[7] != s[15] && s[8] != s[15] && s[10] != s[15] && s[11] != s[15];
    assert s[5] == s[15] && s[6] == s[16] && s[7] == s[17] && s[8] == s[18];
    assert s[9] == s[15] && s[10] == s[16] && s[11] == s[17] && s[12] == s[18];
    forall q: nat ensures OccursAt(s[15..], s[..15], q) <==> q == 5 || q == 9 {
      if q + 4 <= 15 {
        assert s[..15][q..q + 4][0] == s[q];
      }
    }
  }

  /** The window before 5 repeats at the end; the window from 5 to the copy at 9 does not. */
  lemma SeedRepeatedWindows(s: seq<Byte>)
    requires s == "TGCCAATGCATGCCAATGC"
    ensures s[0..9] == s[10..]
    ensures s[5..13][1] != s[11..][1]
  {
    assert s[0] == s[10] && s[1] == s[11] && s[2] == s[12] && s[3] == s[13] && s[4] == s[14];
    assert s[6] != s[12];
  }

  /** The window before 5 passes; the window from 5 to the copy at 9 does not. */
  lemma SeedRepeatedAccepts(m: M.Monomerizer, s: seq<Byte>)
    requires s == "TGCCAATGCATGCCAATGC"
    requires m == M.Monomerizer(Some(0), None, 4)
    ensures Accepts(m, s, None, 5) && !Accepts(m, s, Some(5), 9)
  {
    SeedRepeatedWindows(s);
    HammingZero(s[0..9], s[10..]);
    HammingZero(s[5..13], s[11..]);
  }

  /** Visiting 5 then 9: `last_match` moves to 5 and stays there. */
  lemma SeedRepeatedVisits(m: M.Monomerizer, s: seq<Byte>, occs: seq<nat>)
    requires |s| == 19 && m.seedLen == 4 && occs == [5, 9]
    requires Accepts(m, s, None, 5) && !Accepts(m, s, Some(5), 9)
    ensures SeedOffsets(m, s, occs) && LastMatchOf(m, s, occs) == Some(5)
  {
    LastMatchOfStep(m, s, occs, 0);
    assert occs[..0] == [];
    LastMatchOfStep(m, s, occs, 1);
    assert occs[..2] == occs;
  }

  /**
   * The seed copy at 9 is rejected against the accepted one at 5, so the
   * cut falls after the copy at 5 (lib/src/monomerize2.rs:235-248).
   */
  lemma SeedRepeated(m: M.Monomerizer, s: seq<Byte>)
    requires s == "TGCCAATGCATGCCAATGC"
    requires m == M.Monomerizer(Some(0), None, 4)
    ensures MonomerSuffix(m, s) == "ATGCCAATGC"
  {
    SeedRepeatedSeed(s);
    FindAllPair(s[15..], s[..15], 5, 9);
    LastMatchAfterAll(m, s);
    SeedRepeatedAccepts(m, s);
    SeedRepeatedVisits(m, s, [5, 9]);
    assert Cut(m, s) == 9;
  }
}
