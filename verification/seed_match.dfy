/**
 * The exact seed search that rust-bio's `pattern_matching::shift_and::ShiftAnd`
 * performs: `find_all` yields every start offset of the pattern in the text,
 * in ascending order. The bit-parallel automaton itself is not modelled; only
 * the offsets it yields are.
 */
module SeedMatch {
  import opened Bytes

  /** The pattern occurs in the text starting at offset `p`. */
  predicate OccursAt(pattern: seq<Byte>, text: seq<Byte>, p: nat)
  {
    p + |pattern| <= |text| && text[p..p + |pattern|] == pattern
  }

  predicate StrictlyAscending(s: seq<nat>)
  {
    forall i, j :: 0 <= i < j < |s| ==> s[i] < s[j]
  }

  /** The offsets at or after `from` where the pattern occurs, ascending. */
  function OccurrencesFrom(pattern: seq<Byte>, text: seq<Byte>, from: nat): (r: seq<nat>)
    ensures forall q :: q in r <==> from <= q && OccursAt(pattern, text, q)
    ensures StrictlyAscending(r)
    decreases |text| - from
  {
    if from + |pattern| > |text| then []
    else
      var rest := OccurrencesFrom(pattern, text, from + 1);
      if OccursAt(pattern, text, from) then
        assert forall k :: 0 <= k < |rest| ==> from < rest[k] by {
          forall k | 0 <= k < |rest| ensures from < rest[k] {
            assert rest[k] in rest;
          }
        }
        [from] + rest
      else rest
  }

  /**
   * `ShiftAnd::new(pattern).find_all(text)`. The automaton keeps its state in
   * one 64-bit word, hence the bound on the pattern length.
   */
  function FindAll(pattern: seq<Byte>, text: seq<Byte>): (r: seq<nat>)
    requires 0 < |pattern| <= 64
    ensures forall q :: q in r <==> OccursAt(pattern, text, q)
    ensures StrictlyAscending(r)
  {
    OccurrencesFrom(pattern, text, 0)
  }

  /** No occurrence lies strictly between two consecutive offsets of `find_all`. */
  lemma NoOccurrenceBetween(pattern: seq<Byte>, text: seq<Byte>, occs: seq<nat>, i: nat, q: nat)
    requires forall x :: x in occs <==> OccursAt(pattern, text, x)
    requires StrictlyAscending(occs)
    requires i + 1 < |occs| && occs[i] < q < occs[i + 1]
    ensures !OccursAt(pattern, text, q)
  {
    forall t | 0 <= t < |occs|
      ensures occs[t] != q
    {
      if t < i {
        assert occs[t] < occs[i];
      } else if t > i + 1 {
        assert occs[i + 1] < occs[t];
      }
    }
  }

  /** Offsets where the pattern does not occur are skipped by the scan. */
  lemma {:induction false} OccurrencesFromSkip(pattern: seq<Byte>, text: seq<Byte>, from: nat, to: nat)
    requires from <= to
    requires forall q: nat :: from <= q < to ==> !OccursAt(pattern, text, q)
    ensures OccurrencesFrom(pattern, text, from) == OccurrencesFrom(pattern, text, to)
    decreases (to as int) - from
  {
    if from < to {
      OccurrencesFromSkip(pattern, text, from + 1, to);
    }
  }

  /** Once the pattern no longer fits, the scan finds nothing. */
  lemma OccurrencesFromPastEnd(pattern: seq<Byte>, text: seq<Byte>, from: nat)
    requires from + |pattern| > |text|
    ensures OccurrencesFrom(pattern, text, from) == []
  {
  }

  /** An occurrence at `p` heads the offsets found from `p`. */
  lemma OccurrencesFromHit(pattern: seq<Byte>, text: seq<Byte>, p: nat)
    requires OccursAt(pattern, text, p)
    ensures OccurrencesFrom(pattern, text, p) == [p] + OccurrencesFrom(pattern, text, p + 1)
  {
  }

  /** With no occurrence at or after `from`, the scan from there finds nothing. */
  lemma OccurrencesFromNone(pattern: seq<Byte>, text: seq<Byte>, from: nat)
    requires forall q: nat :: from <= q ==> !OccursAt(pattern, text, q)
    ensures OccurrencesFrom(pattern, text, from) == []
  {
    OccurrencesFromSkip(pattern, text, from, from + |text| + 1);
    OccurrencesFromPastEnd(pattern, text, from + |text| + 1);
  }

  /** When the pattern occurs nowhere, `find_all` yields nothing. */
  lemma FindAllNone(pattern: seq<Byte>, text: seq<Byte>)
    requires 0 < |pattern| <= 64
    requires forall q: nat :: !OccursAt(pattern, text, q)
    ensures FindAll(pattern, text) == []
  {
    OccurrencesFromNone(pattern, text, 0);
  }

  /** When the pattern occurs at `p` and nowhere else, `find_all` yields exactly `[p]`. */
  lemma FindAllSingle(pattern: seq<Byte>, text: seq<Byte>, p: nat)
    requires 0 < |pattern| <= 64
    requires forall q: nat :: OccursAt(pattern, text, q) <==> q == p
    ensures FindAll(pattern, text) == [p]
  {
    OccurrencesFromSkip(pattern, text, 0, p);
    OccurrencesFromHit(pattern, text, p);
    OccurrencesFromNone(pattern, text, p + 1);
  }

  /** When the pattern occurs at `p1` and `p2` and nowhere else, `find_all` yields exactly `[p1, p2]`. */
  lemma FindAllPair(pattern: seq<Byte>, text: seq<Byte>, p1: nat, p2: nat)
    requires 0 < |pattern| <= 64 && p1 < p2
    requires forall q: nat :: OccursAt(pattern, text, q) <==> q == p1 || q == p2
    ensures FindAll(pattern, text) == [p1, p2]
  {
    OccurrencesFromSkip(pattern, text, 0, p1);
    OccurrencesFromHit(pattern, text, p1);
    OccurrencesFromSkip(pattern, text, p1 + 1, p2);
    OccurrencesFromHit(pattern, text, p2);
    OccurrencesFromNone(pattern, text, p2 + 1);
  }
}
