/**
 * Open reading frames on a circular sequence (lib/src/orfs.rs).
 *
 * `find_orfs` first records, per reading frame (index mod 3), where the start
 * codon and the stop codons begin, reading the last two codons across the end
 * of the sequence; it then emits one ORF per start codon, following the frame
 * across the end of the sequence up to three times when the length is not a
 * multiple of three.
 */
module Orfs {
  import opened Wrappers
  import opened Bytes
  import opened SeedMatch
  import opened Modular

  /** `Orf`: where the start and stop codons begin, the frame shifts taken, and the length in bases. */
  datatype Orf = Orf(start: nat, stop: Option<nat>, frameShift: nat, length: nat)

  // ---------------------------------------------------------------------------
  // Codons
  // ---------------------------------------------------------------------------

  datatype CodonKind = StartCodon | StopCodon | OtherCodon

  /** The start codon `ATG` is checked first, then the stop codons `TAA`, `TAG` and `TGA`. */
  function Kind(codon: seq<Byte>): CodonKind
  {
    if codon == "ATG" then StartCodon
    else if codon == "TAA" || codon == "TAG" || codon == "TGA" then StopCodon
    else OtherCodon
  }

  /** The three bases from `i` on, read around the end of the circular sequence. */
  function CyclicCodon(s: seq<Byte>, i: nat): (c: seq<Byte>)
    requires i < |s|
  {
    [s[i], s[(i + 1) % |s|], s[(i + 2) % |s|]]
  }

  /** Away from the end, the slice `seq[i..i + 3]` is the codon at `i`. */
  lemma CodonInside(s: seq<Byte>, i: nat)
    requires i + 3 <= |s|
    ensures s[i..i + 3] == CyclicCodon(s, i)
  {
    ModUnique(i + 1, |s|, 0, i + 1);
    ModUnique(i + 2, |s|, 0, i + 2);
  }

  /** The penultimate codon `seq[n - 2..] + seq[..1]` is the codon at `n - 2`. */
  lemma PenultimateCodon(s: seq<Byte>)
    requires |s| >= 2
    ensures s[|s| - 2..] + s[..1] == CyclicCodon(s, |s| - 2)
  {
    var n := |s|;
    ModLap(n - 1, n, 0);
    ModLap(n, n, 1);
    var c := s[n - 2..] + s[..1];
    assert c[0] == s[n - 2] && c[1] == s[n - 1] && c[2] == s[0];
  }

  /** The ultimate codon `seq[n - 1..] + seq[..2]` is the codon at `n - 1`. */
  lemma UltimateCodon(s: seq<Byte>)
    requires |s| >= 2
    ensures s[|s| - 1..] + s[..2] == CyclicCodon(s, |s| - 1)
  {
    var n := |s|;
    ModLap(n, n, 1);
    ModLap(n + 1, n, 1);
    var c := s[n - 1..] + s[..2];
    assert c[0] == s[n - 1] && c[1] == s[0] && c[2] == s[1];
  }

  // ---------------------------------------------------------------------------
  // Codon positions by frame
  // ---------------------------------------------------------------------------

  /** Position `x` lies in frame `f` and its codon is of kind `k`. */
  predicate Hit(s: seq<Byte>, k: CodonKind, f: nat, x: nat)
    requires x < |s|
  {
    x % 3 == f && Kind(CyclicCodon(s, x)) == k
  }

  /** The positions below `m` in frame `f` whose codon is of kind `k`, ascending. */
  function HitsBelow(s: seq<Byte>, k: CodonKind, f: nat, m: nat): (r: seq<nat>)
    requires m <= |s|
    ensures forall x: nat :: x in r <==> x < m && Hit(s, k, f, x)
    ensures StrictlyAscending(r)
  {
    if m == 0 then []
    else
      var prev := HitsBelow(s, k, f, m - 1);
      if Hit(s, k, f, m - 1) then
        assert forall i :: 0 <= i < |prev| ==> prev[i] in prev;
        prev + [m - 1]
      else prev
  }

  /** The three per-frame lists of positions below `m` whose codon is of kind `k`. */
  function FrameListsBelow(s: seq<Byte>, k: CodonKind, m: nat): (r: seq<seq<nat>>)
    requires m <= |s|
  {
    [HitsBelow(s, k, 0, m), HitsBelow(s, k, 1, m), HitsBelow(s, k, 2, m)]
  }

  /** `start_codon_indices_by_frame` (k = `StartCodon`) or `stop_codon_indices_by_frame` (k = `StopCodon`) after the scan. */
  function FrameLists(s: seq<Byte>, k: CodonKind): seq<seq<nat>>
  {
    FrameListsBelow(s, k, |s|)
  }

  /** Visiting position `i` pushes `i` onto list `i mod 3` exactly when its codon is of kind `k`. */
  lemma FrameListsStep(s: seq<Byte>, k: CodonKind, i: nat)
    requires i < |s|
    ensures FrameListsBelow(s, k, i + 1) ==
              if Kind(CyclicCodon(s, i)) == k then
                FrameListsBelow(s, k, i)[i % 3 := FrameListsBelow(s, k, i)[i % 3] + [i]]
              else FrameListsBelow(s, k, i)
  {
  }

  /**
   * Files the codon read at position `i` under its frame: onto the start list
   * when it is `ATG`, otherwise onto the stop list when it is a stop codon.
   */
  method FileCodon(s: seq<Byte>, i: nat, codon: seq<Byte>, starts: seq<seq<nat>>, stops: seq<seq<nat>>)
    returns (starts': seq<seq<nat>>, stops': seq<seq<nat>>)
    requires i < |s| && codon == CyclicCodon(s, i)
    requires starts == FrameListsBelow(s, StartCodon, i)
    requires stops == FrameListsBelow(s, StopCodon, i)
    ensures starts' == FrameListsBelow(s, StartCodon, i + 1)
    ensures stops' == FrameListsBelow(s, StopCodon, i + 1)
  {
    FrameListsStep(s, StartCodon, i);
    FrameListsStep(s, StopCodon, i);
    starts', stops' := starts, stops;
    if codon == "ATG" {
      starts' := starts[i % 3 := starts[i % 3] + [i]];
    } else if codon == "TAA" || codon == "TAG" || codon == "TGA" {
      stops' := stops[i % 3 := stops[i % 3] + [i]];
    }
  }

  /**
   * Step 1 of `find_orfs` (lib/src/orfs.rs:32-82, the branch without
   * `AHO_CORASICK`): the codon scan, then the two codons across the end.
   */
  method ScanCodons(s: seq<Byte>) returns (starts: seq<seq<nat>>, stops: seq<seq<nat>>)
    requires |s| >= 2
    ensures starts == FrameLists(s, StartCodon)
    ensures stops == FrameLists(s, StopCodon)
  {
    var n := |s|;
    starts := [[], [], []];
    stops := [[], [], []];
    for i := 0 to n - 2
      invariant starts == FrameListsBelow(s, StartCodon, i)
      invariant stops == FrameListsBelow(s, StopCodon, i)
    {
      var codon := s[i..i + 3];
      CodonInside(s, i);
      starts, stops := FileCodon(s, i, codon, starts, stops);
    }
    var penultimate := s[n - 2..] + s[..1];
    PenultimateCodon(s);
    starts, stops := FileCodon(s, n - 2, penultimate, starts, stops);
    var ultimate := s[n - 1..] + s[..2];
    UltimateCodon(s);
    starts, stops := FileCodon(s, n - 1, ultimate, starts, stops);
  }

  /** Every start codon position, frame 0 first, then frame 1, then frame 2. */
  function StartPositions(s: seq<Byte>): (r: seq<nat>)
    ensures forall x: nat :: x in r <==> x < |s| && Kind(CyclicCodon(s, x)) == StartCodon
  {
    var lists := FrameLists(s, StartCodon);
    var r := lists[0] + lists[1] + lists[2];
    assert forall x: nat :: x in r <==> x < |s| && Kind(CyclicCodon(s, x)) == StartCodon by {
      forall x: nat
        ensures x in r <==> x < |s| && Kind(CyclicCodon(s, x)) == StartCodon
      {
        if x < |s| {
          assert Hit(s, StartCodon, x % 3, x) <==> Kind(CyclicCodon(s, x)) == StartCodon;
        }
      }
    }
    r
  }

  // ---------------------------------------------------------------------------
  // One ORF per start codon
  // ---------------------------------------------------------------------------

  /** The index of the first element satisfying `p`; `Find` is defined through it. */
  function Position(list: seq<nat>, p: nat -> bool): (r: Option<nat>)
    ensures r.Some? ==> r.value < |list| && p(list[r.value])
    ensures r.Some? ==> forall j :: 0 <= j < r.value ==> !p(list[j])
    ensures r.None? ==> forall j :: 0 <= j < |list| ==> !p(list[j])
  {
    if |list| == 0 then None
    else if p(list[0]) then Some(0)
    else
      match Position(list[1..], p)
      case Some(i) =>
        assert forall j :: 1 <= j < |list| ==> list[j] == list[1..][j - 1];
        Some(i + 1)
      case None =>
        assert forall j :: 1 <= j < |list| ==> list[j] == list[1..][j - 1];
        None
  }

  /** `Iterator::find` over a list of positions: the first element satisfying `p`. */
  function Find(list: seq<nat>, p: nat -> bool): (r: Option<nat>)
    ensures r.Some? ==> r.value in list && p(r.value)
    ensures r.None? ==> forall x :: x in list ==> !p(x)
  {
    match Position(list, p)
    case Some(i) => Some(list[i])
    case None => None
  }

  /** On an ascending list, the first element satisfying `p` is the least one. */
  lemma FindLeast(list: seq<nat>, p: nat -> bool)
    requires StrictlyAscending(list)
    ensures Find(list, p).Some? ==> forall x :: x in list && p(x) ==> Find(list, p).value <= x
  {
    var r := Position(list, p);
    if r.Some? {
      forall x | x in list && p(x)
        ensures list[r.value] <= x
      {
        var j :| 0 <= j < |list| && list[j] == x;
        assert r.value <= j;
      }
    }
  }

  /** The frame reached by following the reading frame `f` across the end of a sequence of length `n`. */
  function NextFrame(n: nat, f: nat): (g: nat)
  {
    if n % 3 == 2 then (f + 1) % 3 else (f + 2) % 3
  }

  /**
   * The ORF that `find_orfs` emits for the start codon at `start`, given the
   * per-frame stop lists (lib/src/orfs.rs:87-214).
   */
  function OrfFor(n: nat, stops: seq<seq<nat>>, start: nat): (o: Orf)
    requires |stops| == 3 && start < n
  {
    if n % 3 == 0 then OrfInFrame(n, stops, start) else OrfShifting(n, stops, start)
  }

  /**
   * A length that is a multiple of three closes the frame on itself: the first
   * stop after the start, else the first before it, read across the end.
   */
  function OrfInFrame(n: nat, stops: seq<seq<nat>>, start: nat): (o: Orf)
    requires |stops| == 3 && start < n
  {
    var frame := start % 3;
    var stop := match Find(stops[frame], i => i > start)
                case Some(x) => Some(x)
                case None => Find(stops[frame], i => i < start);
    var length := match stop
                  case Some(x) => if x >= start then x - start + 3 else x + n - start + 3
                  case None => n;
    Orf(start, stop, 0, length)
  }

  /**
   * Otherwise the first stop at or after the start in its own frame; failing
   * that, the frame is followed across the end of the sequence at most three
   * times, each time into the frame `NextFrame` gives, taking the first stop
   * of that frame.
   */
  function OrfShifting(n: nat, stops: seq<seq<nat>>, start: nat): (o: Orf)
    requires |stops| == 3 && start < n
  {
    var frame := start % 3;
    match Find(stops[frame], i => i >= start)
    case Some(x) => Orf(start, Some(x), 0, x - start + 3)
    case None => OrfAcrossEnd(n, stops, start)
  }

  /** The three laps across the end of the sequence, each into the next frame. */
  function OrfAcrossEnd(n: nat, stops: seq<seq<nat>>, start: nat): (o: Orf)
    requires |stops| == 3 && start < n
  {
    var length1 := n - start;
    var frame1 := NextFrame(n, start % 3);
    if |stops[frame1]| > 0 then Orf(start, Some(stops[frame1][0]), 1, length1 + stops[frame1][0] + 3)
    else
      var length2 := length1 + n;
      var frame2 := NextFrame(n, frame1);
      if |stops[frame2]| > 0 then Orf(start, Some(stops[frame2][0]), 2, length2 + stops[frame2][0] + 3)
      else
        var length3 := length2 + n;
        var frame3 := NextFrame(n, frame2);
        if |stops[frame3]| > 0 then Orf(start, Some(stops[frame3][0]), 3, length3 + stops[frame3][0] + 3)
        else Orf(start, None, 3, length3 + start)
  }

  /** The loop body of step 2 of `find_orfs`, with its running `orf_length`. */
  method OrfAt(n: nat, stops: seq<seq<nat>>, start: nat) returns (o: Orf)
    requires |stops| == 3 && start < n
    ensures o == OrfFor(n, stops, start)
  {
    var currentFrame := start % 3;
    if n % 3 == 0 {
      var stop := Find(stops[currentFrame], i => i > start);
      if stop.None? {
        stop := Find(stops[currentFrame], i => i < start);
      }
      var length := n;
      if stop.Some? {
        if stop.value >= start {
          length := stop.value - start + 3;
        } else {
          length := stop.value + n - start + 3;
        }
      }
      return Orf(start, stop, 0, length);
    }
    var stop := Find(stops[currentFrame], i => i >= start);
    if stop.Some? {
      return Orf(start, stop, 0, stop.value - start + 3);
    }
    var orfLength := n - start;
    currentFrame := NextFrame(n, currentFrame);
    if |stops[currentFrame]| > 0 {
      return Orf(start, Some(stops[currentFrame][0]), 1, orfLength + stops[currentFrame][0] + 3);
    }
    orfLength := orfLength + n;
    currentFrame := NextFrame(n, currentFrame);
    if |stops[currentFrame]| > 0 {
      return Orf(start, Some(stops[currentFrame][0]), 2, orfLength + stops[currentFrame][0] + 3);
    }
    orfLength := orfLength + n;
    currentFrame := NextFrame(n, currentFrame);
    if |stops[currentFrame]| > 0 {
      return Orf(start, Some(stops[currentFrame][0]), 3, orfLength + stops[currentFrame][0] + 3);
    }
    orfLength := orfLength + start;
    return Orf(start, None, 3, orfLength);
  }

  /** One ORF per start position, in order. */
  function OrfsFrom(n: nat, stops: seq<seq<nat>>, starts: seq<nat>): (r: seq<Orf>)
    requires |stops| == 3 && forall i :: 0 <= i < |starts| ==> starts[i] < n
  {
    if |starts| == 0 then []
    else OrfsFrom(n, stops, starts[..|starts| - 1]) + [OrfFor(n, stops, starts[|starts| - 1])]
  }

  /** What `find_orfs` returns: one ORF per start codon, in the order of `StartPositions`. */
  function Orfs(s: seq<Byte>): (r: seq<Orf>)
  {
    assert forall i :: 0 <= i < |StartPositions(s)| ==> StartPositions(s)[i] in StartPositions(s);
    OrfsFrom(|s|, FrameLists(s, StopCodon), StartPositions(s))
  }

  /** Step 2 of `find_orfs`: the loop over all start positions, pushing one ORF each. */
  method OrfsLoop(n: nat, stops: seq<seq<nat>>, all: seq<nat>) returns (orfs: seq<Orf>)
    requires |stops| == 3 && forall i :: 0 <= i < |all| ==> all[i] < n
    ensures orfs == OrfsFrom(n, stops, all)
  {
    orfs := [];
    for idx := 0 to |all|
      invariant orfs == OrfsFrom(n, stops, all[..idx])
    {
      var o := OrfAt(n, stops, all[idx]);
      assert all[..idx + 1][..idx] == all[..idx];
      orfs := orfs + [o];
    }
    assert all[..|all|] == all;
  }

  /**
   * `find_orfs` (lib/src/orfs.rs:31-217), without the `AHO_CORASICK` scan.
   * Sequences shorter than two bases make the source underflow `seq.len() - 2`.
   */
  method FindOrfs(s: seq<Byte>) returns (orfs: seq<Orf>)
    requires |s| >= 2
    ensures orfs == Orfs(s)
  {
    var starts, stops := ScanCodons(s);
    var all := starts[0] + starts[1] + starts[2];
    assert all == StartPositions(s);
    assert forall i :: 0 <= i < |all| ==> all[i] in all;
    orfs := OrfsLoop(|s|, stops, all);
  }

  // ---------------------------------------------------------------------------
  // The shape of an ORF, over any well-formed stop lists
  // ---------------------------------------------------------------------------

  /** Stop lists as the scan builds them: list `g` ascends and holds positions below `n` in frame `g`. */
  predicate FramedStops(n: nat, stops: seq<seq<nat>>)
  {
    && |stops| == 3
    && (forall g :: 0 <= g < 3 ==> StrictlyAscending(stops[g]))
    && (forall g, x :: 0 <= g < 3 && x in stops[g] ==> x < n && x % 3 == g)
  }

  /** The shape `OrfShape` states, with the stop codon found in the stop lists. */
  predicate ListShaped(n: nat, stops: seq<seq<nat>>, o: Orf)
    requires n > 0 && |stops| == 3
  {
    && o.frameShift <= 3
    && (n % 3 == 0 ==> o.frameShift == 0)
    && o.length % 3 == 0 && o.length >= 3
    && (o.stop.Some? ==>
          o.stop.value < n && o.stop.value in stops[o.stop.value % 3]
          && (o.start + o.length - 3) % n == o.stop.value)
    && (o.stop.None? ==>
          if n % 3 == 0 then o.length == n else o.frameShift == 3 && o.length == 3 * n)
  }

  lemma ModThree(a: int, b: int)
    requires a % 3 == b % 3
    ensures (a - b) % 3 == 0
  {
  }

  /** When the length is a multiple of three, going around the end keeps the frame. */
  lemma LapSameFrame(n: int, p: int)
    requires n % 3 == 0
    ensures (p - n) % 3 == p % 3
  {
  }

  /** The frame reached after following frame `f` around the end `laps` times. */
  function FrameAfter(n: nat, f: nat, laps: nat): nat
  {
    if laps == 0 then f else NextFrame(n, FrameAfter(n, f, laps - 1))
  }

  /**
   * When the length is not a multiple of three, going around the end moves
   * position `p` to position `p - n`, which lies in the frame `NextFrame`
   * names.
   */
  lemma OneLap(n: nat, p: int)
    requires n % 3 != 0
    ensures (p - n) % 3 == NextFrame(n, p % 3)
  {
  }

  /** After one, two and three laps the frame is the one `FrameAfter` gives, which after three laps is the original one. */
  lemma FrameAfterLaps(n: nat, p: int)
    requires n % 3 != 0
    ensures (p - n) % 3 == FrameAfter(n, p % 3, 1)
    ensures (p - 2 * n) % 3 == FrameAfter(n, p % 3, 2)
    ensures (p - 3 * n) % 3 == FrameAfter(n, p % 3, 3) == p % 3
  {
    OneLap(n, p);
    OneLap(n, p - n);
    OneLap(n, p - n - n);
    assert FrameAfter(n, p % 3, 1) == NextFrame(n, p % 3);
    assert FrameAfter(n, p % 3, 2) == NextFrame(n, FrameAfter(n, p % 3, 1));
    assert FrameAfter(n, p % 3, 3) == NextFrame(n, FrameAfter(n, p % 3, 2));
    assert (p - 3 * n) % 3 == p % 3;
  }

  /** The arithmetic of an ORF whose stop lies `laps` times around the sequence after its start. */
  lemma LapArithmetic(n: nat, start: nat, x: nat, laps: nat, length: int)
    requires 0 < n && start < n && x < n && laps <= 3
    requires x % 3 == (start - laps * n) % 3 && (laps == 0 ==> start < x)
    requires length == laps * n + x - start + 3
    ensures length % 3 == 0 && length >= 3 && (start + length - 3) % n == x
  {
    var w := laps * n;
    if laps == 0 {
      assert w == 0;
    } else if laps == 1 {
      assert w == n;
    } else if laps == 2 {
      assert w == n + n;
    } else {
      assert w == n + n + n;
    }
    ModThree(x, start - w);
    ModLap(w + x, n, laps);
  }

  /** An ORF whose stop `x` lies `laps` times around the sequence after its start, in the frame reached there. */
  lemma ShapedWithStop(n: nat, stops: seq<seq<nat>>, start: nat, x: nat, laps: nat, shift: nat, length: nat)
    requires n >= 2 && FramedStops(n, stops) && start < n
    requires x in stops[x % 3] && x % 3 == (start - laps * n) % 3
    requires laps <= 3 && (laps == 0 ==> start < x) && length == laps * n + x - start + 3
    requires shift <= 3 && (n % 3 == 0 ==> shift == 0)
    ensures ListShaped(n, stops, Orf(start, Some(x), shift, length))
  {
    LapArithmetic(n, start, x, laps, length);
  }

  /** An ORF without a stop covers the sequence once, or three times when its length is not a multiple of three. */
  lemma ShapedWithoutStop(n: nat, stops: seq<seq<nat>>, start: nat, shift: nat, length: nat)
    requires n >= 2 && |stops| == 3
    requires if n % 3 == 0 then shift == 0 && length == n else shift == 3 && length == 3 * n
    ensures ListShaped(n, stops, Orf(start, None, shift, length))
  {
  }

  lemma ShapeInFrame(n: nat, stops: seq<seq<nat>>, start: nat)
    requires n >= 2 && n % 3 == 0 && FramedStops(n, stops) && start < n && start !in stops[start % 3]
    ensures ListShaped(n, stops, OrfInFrame(n, stops, start))
  {
    var f := start % 3;
    var a := Find(stops[f], i => i > start);
    if a.Some? {
      var x := a.value;
      ShapedWithStop(n, stops, start, x, 0, 0, x - start + 3);
    } else {
      var b := Find(stops[f], i => i < start);
      if b.Some? {
        var x := b.value;
        LapSameFrame(n, start);
        ShapedWithStop(n, stops, start, x, 1, 0, x + n - start + 3);
      } else {
        ShapedWithoutStop(n, stops, start, 0, n);
      }
    }
  }

  lemma ShapeAcrossEnd(n: nat, stops: seq<seq<nat>>, start: nat)
    requires n >= 2 && n % 3 != 0 && FramedStops(n, stops) && start < n
    ensures ListShaped(n, stops, OrfAcrossEnd(n, stops, start))
  {
    FrameAfterLaps(n, start);
    var f1 := NextFrame(n, start % 3);
    var f2 := NextFrame(n, f1);
    var f3 := NextFrame(n, f2);
    assert f1 == FrameAfter(n, start % 3, 1);
    assert f2 == FrameAfter(n, start % 3, 2);
    assert f3 == FrameAfter(n, start % 3, 3);
    if |stops[f1]| > 0 {
      var x := stops[f1][0];
      assert x in stops[f1];
      ShapedWithStop(n, stops, start, x, 1, 1, n - start + x + 3);
    } else if |stops[f2]| > 0 {
      var x := stops[f2][0];
      assert x in stops[f2];
      ShapedWithStop(n, stops, start, x, 2, 2, n - start + n + x + 3);
    } else if |stops[f3]| > 0 {
      var x := stops[f3][0];
      assert x in stops[f3];
      ShapedWithStop(n, stops, start, x, 3, 3, n - start + n + n + x + 3);
    } else {
      ShapedWithoutStop(n, stops, start, 3, n - start + n + n + start);
    }
  }

  lemma ShapeShifting(n: nat, stops: seq<seq<nat>>, start: nat)
    requires n >= 2 && n % 3 != 0 && FramedStops(n, stops) && start < n && start !in stops[start % 3]
    ensures ListShaped(n, stops, OrfShifting(n, stops, start))
  {
    var a := Find(stops[start % 3], i => i >= start);
    if a.Some? {
      var x := a.value;
      ShapedWithStop(n, stops, start, x, 0, 0, x - start + 3);
    } else {
      ShapeAcrossEnd(n, stops, start);
    }
  }

  // ---------------------------------------------------------------------------
  // An ORF reads no stop codon before its own
  // ---------------------------------------------------------------------------

  /** The number of codons read before the stop codon (all of them when there is none). */
  function OpenCodons(o: Orf): nat
  {
    if o.stop.Some? && o.length >= 3 then o.length / 3 - 1 else o.length / 3
  }

  /** A position below the first entry of an ascending list is not in it. */
  lemma BelowFirst(list: seq<nat>, p: nat)
    requires StrictlyAscending(list) && (|list| == 0 || p < list[0])
    ensures p !in list
  {
    forall j | 0 <= j < |list|
      ensures list[j] != p
    {
      if j > 0 {
        assert list[0] < list[j];
      }
    }
  }

  lemma CodonBound(o: Orf, t: nat)
    requires o.length % 3 == 0 && o.length >= 3 && t < OpenCodons(o)
    ensures 3 * t + (if o.stop.Some? then 3 else 0) < o.length
  {
  }

  /**
   * Where the codon read `t` codons after `start` lies, in an ORF that ends
   * `laps` laps around the sequence before position `end`: the lap it lies in,
   * after the start on the first lap, before `end` on the last, and in the
   * frame the laps lead to.
   */
  lemma CodonPosition(n: nat, start: nat, t: nat, laps: nat, end: nat) returns (lap: nat)
    requires 0 < n && start < n && end <= n && laps <= 3
    requires start + 3 * t < laps * n + end
    ensures lap <= laps
    ensures lap == 0 ==> start <= (start + 3 * t) % n && (start + 3 * t) % n % 3 == start % 3
    ensures lap == 1 ==> (start + 3 * t) % n % 3 == (start - n) % 3
    ensures lap == 2 ==> (start + 3 * t) % n % 3 == (start - 2 * n) % 3
    ensures lap == 3 ==> (start + 3 * t) % n % 3 == (start - 3 * n) % 3
    ensures lap == laps ==> (start + 3 * t) % n < end
  {
    var q := start + 3 * t;
    if q < n {
      lap := 0;
    } else if q < 2 * n {
      lap := 1;
    } else if q < 3 * n {
      lap := 2;
    } else {
      lap := 3;
    }
    LapsBound(n, lap, laps, q, end);
    PositionInLap(n, start, t, lap);
  }

  /** A position below `laps` laps plus `end` lies on lap `laps` at most, and before `end` on that lap. */
  lemma LapsBound(n: nat, lap: nat, laps: nat, q: nat, end: nat)
    requires 0 < n && lap <= 3 && laps <= 3 && end <= n
    requires q < laps * n + end && (lap == 3 || q < lap * n + n) && lap * n <= q
    ensures lap <= laps && (lap == laps ==> q - lap * n < end)
  {
    if laps == 0 {
      assert laps * n == 0;
    } else if laps == 1 {
      assert laps * n == n;
    } else if laps == 2 {
      assert laps * n == n + n;
    } else {
      assert laps * n == n + n + n;
    }
    if lap == 0 {
      assert lap * n == 0;
    } else if lap == 1 {
      assert lap * n == n;
    } else if lap == 2 {
      assert lap * n == n + n;
    } else {
      assert lap * n == n + n + n;
    }
  }

  /** The codon read `t` codons after `start`, on lap `k`, lies `k` laps back. */
  lemma PositionInLap(n: nat, start: nat, t: nat, k: nat)
    requires 0 < n && k <= 3 && k * n <= start + 3 * t < k * n + n
    ensures (start + 3 * t) % n == start + 3 * t - k * n
    ensures (start + 3 * t) % n % 3 == (start - k * n) % 3
  {
    ModLap(start + 3 * t, n, k);
  }

  /**
   * With a length that is a multiple of three, the codons read before `end`
   * (on the same lap, or on the next lap when `laps` is 1) stay in the start's
   * frame and miss every stop of that frame, given the stops the search skipped.
   */
  lemma OpenWithinFrame(n: nat, list: seq<nat>, start: nat, t: nat, laps: nat, end: nat)
    requires 0 < n && n % 3 == 0 && start < n && end <= n && laps <= 1
    requires start + 3 * t < laps * n + end
    requires start !in list
    requires laps == 0 ==> forall y :: y in list ==> y < start || end <= y
    requires laps == 1 ==> forall y :: y in list ==> end <= y < start
    ensures var p := (start + 3 * t) % n; p !in list && p % 3 == start % 3
  {
    var lap := CodonPosition(n, start, t, laps, end);
    LapSameFrame(n, start);
  }

  lemma OpenInFrame(n: nat, stops: seq<seq<nat>>, start: nat, t: nat)
    requires n >= 2 && n % 3 == 0 && FramedStops(n, stops) && start < n && start !in stops[start % 3]
    requires t < OpenCodons(OrfInFrame(n, stops, start))
    ensures var p := (start + 3 * t) % n; p !in stops[p % 3]
  {
    var f := start % 3;
    var o := OrfInFrame(n, stops, start);
    ShapeInFrame(n, stops, start);
    CodonBound(o, t);
    var a := Find(stops[f], i => i > start);
    FindLeast(stops[f], i => i > start);
    if a.Some? {
      var x := a.value;
      assert o.length == x - start + 3;
      OpenWithinFrame(n, stops[f], start, t, 0, x);
    } else {
      var b := Find(stops[f], i => i < start);
      FindLeast(stops[f], i => i < start);
      if b.Some? {
        var x := b.value;
        assert o.length == x + n - start + 3;
        OpenWithinFrame(n, stops[f], start, t, 1, x);
      } else {
        assert o.length == n;
        OpenWithinFrame(n, stops[f], start, t, 1, start);
      }
    }
  }

  lemma OpenAcrossEnd(n: nat, stops: seq<seq<nat>>, start: nat, t: nat)
    requires n >= 2 && n % 3 != 0 && FramedStops(n, stops) && start < n
    requires forall y :: y in stops[start % 3] ==> y < start
    requires t < OpenCodons(OrfAcrossEnd(n, stops, start))
    ensures var p := (start + 3 * t) % n; p !in stops[p % 3]
  {
    var o := OrfAcrossEnd(n, stops, start);
    ShapeAcrossEnd(n, stops, start);
    CodonBound(o, t);
    FrameAfterLaps(n, start);
    var f1 := NextFrame(n, start % 3);
    var f2 := NextFrame(n, f1);
    var f3 := NextFrame(n, f2);
    assert f1 == FrameAfter(n, start % 3, 1);
    assert f2 == FrameAfter(n, start % 3, 2);
    assert f3 == FrameAfter(n, start % 3, 3);
    var lap;
    if |stops[f1]| > 0 {
      assert o.length == n - start + stops[f1][0] + 3;
      lap := CodonPosition(n, start, t, 1, stops[f1][0]);
    } else if |stops[f2]| > 0 {
      assert o.length == n - start + n + stops[f2][0] + 3;
      lap := CodonPosition(n, start, t, 2, stops[f2][0]);
    } else if |stops[f3]| > 0 {
      assert o.length == n - start + n + n + stops[f3][0] + 3;
      lap := CodonPosition(n, start, t, 3, stops[f3][0]);
    } else {
      assert o.length == n - start + n + n + start;
      lap := CodonPosition(n, start, t, 3, start);
    }
    var p := (start + 3 * t) % n;
    if lap == 1 {
      BelowFirst(stops[f1], p);
    } else if lap == 2 {
      BelowFirst(stops[f2], p);
    } else if lap == 3 {
      BelowFirst(stops[f3], p);
    }
  }

  lemma OpenShifting(n: nat, stops: seq<seq<nat>>, start: nat, t: nat)
    requires n >= 2 && n % 3 != 0 && FramedStops(n, stops) && start < n && start !in stops[start % 3]
    requires t < OpenCodons(OrfShifting(n, stops, start))
    ensures var p := (start + 3 * t) % n; p !in stops[p % 3]
  {
    var f := start % 3;
    var a := Find(stops[f], i => i >= start);
    if a.Some? {
      var o := OrfShifting(n, stops, start);
      ShapeShifting(n, stops, start);
      CodonBound(o, t);
      FindLeast(stops[f], i => i >= start);
      var lap := CodonPosition(n, start, t, 0, a.value);
    } else {
      OpenAcrossEnd(n, stops, start, t);
    }
  }

  // ---------------------------------------------------------------------------
  // What an ORF means
  // ---------------------------------------------------------------------------

  predicate IsStopAt(s: seq<Byte>, p: nat)
    requires p < |s|
  {
    Kind(CyclicCodon(s, p)) == StopCodon
  }

  /** The ORF `find_orfs` emits for the start codon at `start` of `s`. */
  function OrfOf(s: seq<Byte>, start: nat): Orf
    requires start < |s|
  {
    OrfFor(|s|, FrameLists(s, StopCodon), start)
  }

  /** The stop lists of the scan are well formed, and hold exactly the stop codons of their frame. */
  lemma ScannedStops(s: seq<Byte>)
    ensures FramedStops(|s|, FrameLists(s, StopCodon))
    ensures forall g, x: nat :: 0 <= g < 3 ==>
              (x in FrameLists(s, StopCodon)[g] <==> x < |s| && x % 3 == g && IsStopAt(s, x))
  {
  }

  /**
   * Every emitted ORF starts at its start codon, ends at a stop codon other
   * than its start codon, has a length that is a whole number of codons, and
   * its last codon begins at the stop; without a stop it covers the sequence
   * once (length a multiple of three) or three times (frame shift 3).
   */
  lemma OrfShape(s: seq<Byte>, start: nat)
    requires |s| >= 2 && start < |s| && Kind(CyclicCodon(s, start)) == StartCodon
    ensures var o := OrfOf(s, start);
      && o.start == start
      && o.frameShift <= 3
      && (|s| % 3 == 0 ==> o.frameShift == 0)
      && o.length % 3 == 0 && o.length >= 3
      && (o.stop.Some? ==>
            o.stop.value < |s| && o.stop.value != start && IsStopAt(s, o.stop.value)
            && (start + o.length - 3) % |s| == o.stop.value)
      && (o.stop.None? ==>
            if |s| % 3 == 0 then o.length == |s| else o.frameShift == 3 && o.length == 3 * |s|)
  {
    var n := |s|;
    var stops := FrameLists(s, StopCodon);
    ScannedStops(s);
    if n % 3 == 0 {
      ShapeInFrame(n, stops, start);
    } else {
      ShapeShifting(n, stops, start);
    }
  }

  /**
   * The reading frame of an ORF stays open: no codon it reads before its last
   * one is a stop codon (for an ORF without a stop, no codon it reads at all).
   */
  lemma OrfOpen(s: seq<Byte>, start: nat, t: nat)
    requires |s| >= 2 && start < |s| && Kind(CyclicCodon(s, start)) == StartCodon
    requires t < OpenCodons(OrfOf(s, start))
    ensures !IsStopAt(s, (start + 3 * t) % |s|)
  {
    var n := |s|;
    var stops := FrameLists(s, StopCodon);
    ScannedStops(s);
    assert start !in stops[start % 3];
    if n % 3 == 0 {
      OpenInFrame(n, stops, start, t);
    } else {
      OpenShifting(n, stops, start, t);
    }
  }

  // ---------------------------------------------------------------------------
  // `Orf::seq`: the bases of an ORF
  // ---------------------------------------------------------------------------

  /** The sequence repeated `k` times: a finite prefix of `seq.iter().cycle()`. */
  function Repeat(s: seq<Byte>, k: nat): (r: seq<Byte>)
    ensures |r| == k * |s|
  {
    if k == 0 then [] else s + Repeat(s, k - 1)
  }

  /** Position `j` of the repeated sequence holds the base at `j` mod the length. */
  lemma {:induction false} RepeatAt(s: seq<Byte>, k: nat, j: nat)
    requires j < k * |s|
    ensures Repeat(s, k)[j] == s[j % |s|]
  {
    if j >= |s| {
      RepeatAt(s, k - 1, j - |s|);
      ModShift(j - |s|, |s|);
    }
  }

  lemma LapsCover(n: nat, a: nat)
    requires 0 < n
    ensures a < (a / n + 1) * n
  {
  }

  /**
   * `Orf::seq`: `length` bases read around the circular sequence from the
   * start codon on (the cycle of an empty sequence yields nothing).
   */
  function OrfSeq(o: Orf, s: seq<Byte>): (r: seq<Byte>)
    ensures |r| == if |s| == 0 then 0 else o.length
    ensures forall i :: 0 <= i < |r| ==> r[i] == s[(o.start + i) % |s|]
  {
    if |s| == 0 then []
    else
      var laps := (o.start + o.length) / |s| + 1;
      LapsCover(|s|, o.start + o.length);
      var r := Repeat(s, laps)[o.start..o.start + o.length];
      assert forall i :: 0 <= i < |r| ==> r[i] == s[(o.start + i) % |s|] by {
        forall i | 0 <= i < |r| ensures r[i] == s[(o.start + i) % |s|] {
          RepeatAt(s, laps, o.start + i);
        }
      }
      r
  }

  /** The bases of an ORF begin with the codon at its start. */
  lemma OrfSeqHead(o: Orf, s: seq<Byte>)
    requires 0 < |s| && o.start < |s| && o.length >= 3
    ensures OrfSeq(o, s)[..3] == CyclicCodon(s, o.start)
  {
    var r := OrfSeq(o, s);
    ModUnique(o.start, |s|, 0, o.start);
    assert r[..3] == [r[0], r[1], r[2]];
  }

  /** The bases of an ORF end with the codon its last three bases begin at, read around the end. */
  lemma OrfSeqTail(o: Orf, s: seq<Byte>)
    requires 0 < |s| && o.length >= 3
    ensures OrfSeq(o, s)[o.length - 3..] == CyclicCodon(s, (o.start + o.length - 3) % |s|)
  {
    var r := OrfSeq(o, s);
    var e := o.start + o.length - 3;
    ModAdd(|s|, e, 1);
    ModAdd(|s|, e, 2);
    assert r[o.length - 3..] == [r[o.length - 3], r[o.length - 2], r[o.length - 1]];
  }

  /** The bases of an emitted ORF begin with the start codon `ATG` and, when it has a stop, end with a stop codon. */
  lemma OrfSeqCodons(s: seq<Byte>, start: nat)
    requires |s| >= 2 && start < |s| && Kind(CyclicCodon(s, start)) == StartCodon
    ensures var r := OrfSeq(OrfOf(s, start), s);
      && |r| >= 3 && r[..3] == "ATG"
      && (OrfOf(s, start).stop.Some? ==> Kind(r[|r| - 3..]) == StopCodon)
  {
    var o := OrfOf(s, start);
    OrfShape(s, start);
    OrfSeqHead(o, s);
    OrfSeqTail(o, s);
    var r := OrfSeq(o, s);
    assert |r| == o.length;
    if o.stop.Some? {
      assert IsStopAt(s, o.stop.value);
      assert r[|r| - 3..] == CyclicCodon(s, o.stop.value);
    }
  }

  // ---------------------------------------------------------------------------
  // `longest_orfs`: the longest ORF per stop codon
  // ---------------------------------------------------------------------------

  predicate LengthAscending(s: seq<Orf>)
  {
    forall i, j :: 0 <= i < j < |s| ==> s[i].length <= s[j].length
  }

  predicate LengthDescending(s: seq<Orf>)
  {
    forall i, j :: 0 <= i < j < |s| ==> s[i].length >= s[j].length
  }

  /** The stops of a list of ORFs. */
  function Stops(s: seq<Orf>): (r: set<Option<nat>>)
    ensures forall st :: st in r <==> exists i :: 0 <= i < |s| && s[i].stop == st
  {
    if s == [] then {}
    else
      var r := Stops(s[..|s| - 1]) + {s[|s| - 1].stop};
      assert forall i :: 0 <= i < |s| - 1 ==> s[..|s| - 1][i] == s[i];
      r
  }

  /**
   * The ORFs `longest_orfs` keeps while walking the list: each one whose stop
   * has not been seen before.
   */
  function KeepFirstPerStop(s: seq<Orf>): (r: seq<Orf>)
    ensures |r| <= |s|
    ensures forall o :: o in r ==> o in s
    ensures forall i, j :: 0 <= i < j < |r| ==> r[i].stop != r[j].stop
  {
    if s == [] then []
    else
      var prev := s[..|s| - 1];
      var last := s[|s| - 1];
      var kept := KeepFirstPerStop(prev);
      assert forall o :: o in prev ==> o in s;
      if last.stop in Stops(prev) then kept
      else
        assert forall i :: 0 <= i < |kept| ==> kept[i].stop != last.stop by {
          forall i | 0 <= i < |kept| ensures kept[i].stop != last.stop {
            assert kept[i] in prev;
            var j :| 0 <= j < |prev| && prev[j] == kept[i];
          }
        }
        kept + [last]
  }

  /** Every stop of the list keeps an ORF. */
  lemma {:induction false} KeptStops(s: seq<Orf>)
    ensures Stops(KeepFirstPerStop(s)) == Stops(s)
  {
    if s != [] {
      var prev := s[..|s| - 1];
      var kept := KeepFirstPerStop(prev);
      KeptStops(prev);
      if s[|s| - 1].stop !in Stops(prev) {
        assert KeepFirstPerStop(s) == kept + [s[|s| - 1]];
        assert Stops(kept + [s[|s| - 1]]) == Stops(kept) + {s[|s| - 1].stop} by {
          assert (kept + [s[|s| - 1]])[..|kept|] == kept;
        }
      }
      assert Stops(s) == Stops(prev) + {s[|s| - 1].stop};
    }
  }

  /** On a list sorted by non-increasing length, the ORF kept for a stop is a longest one with that stop. */
  lemma {:induction false} KeptIsLongest(s: seq<Orf>, o: Orf, k: nat)
    requires LengthDescending(s)
    requires o in s && k < |KeepFirstPerStop(s)| && KeepFirstPerStop(s)[k].stop == o.stop
    ensures o.length <= KeepFirstPerStop(s)[k].length
  {
    var r := KeepFirstPerStop(s);
    var prev := s[..|s| - 1];
    var last := s[|s| - 1];
    var kept := KeepFirstPerStop(prev);
    assert LengthDescending(prev);
    if o in prev {
      var i :| 0 <= i < |prev| && prev[i] == o;
      assert o.stop in Stops(prev);
      if last.stop in Stops(prev) {
        assert r == kept;
      } else {
        assert r == kept + [last];
        assert r[|kept|].stop != o.stop;
        assert k < |kept|;
        assert r[k] == kept[k];
      }
      KeptIsLongest(prev, o, k);
    } else {
      assert o == last;
      assert r[k] in s;
      var i :| 0 <= i < |s| && s[i] == r[k];
    }
  }

  /** The first `i + 1` ORFs are sorted except around the hole at `j`, where the inserted ORF sits. */
  predicate Inserting(s: seq<Orf>, i: nat, j: nat)
    requires j <= i < |s|
  {
    && (forall p, q :: 0 <= p < q <= i && p != j && q != j ==> s[p].length <= s[q].length)
    && (forall q :: j < q <= i ==> s[j].length < s[q].length)
    && (0 < j < i ==> s[j - 1].length <= s[j + 1].length)
  }

  /** Once nothing longer precedes the inserted ORF, the first `i + 1` ORFs are sorted. */
  lemma Inserted(s: seq<Orf>, i: nat, j: nat)
    requires j <= i < |s| && Inserting(s, i, j)
    requires j == 0 || s[j - 1].length <= s[j].length
    ensures LengthAscending(s[..i + 1])
  {
  }

  /** Swapping the inserted ORF with a longer left neighbour moves the hole one place left. */
  lemma InsertStep(s: seq<Orf>, i: nat, j: nat)
    requires 0 < j <= i < |s| && Inserting(s, i, j) && s[j - 1].length > s[j].length
    ensures Inserting(s[j - 1 := s[j]][j := s[j - 1]], i, j - 1)
  {
  }

  /** Exchanges the ORFs at `j - 1` and `j`. */
  method SwapAdjacent(a: array<Orf>, j: nat)
    requires 0 < j < a.Length
    modifies a
    ensures a[..] == old(a[..])[j - 1 := old(a[j])][j := old(a[j - 1])]
    ensures multiset(a[..]) == multiset(old(a[..]))
  {
    a[j - 1], a[j] := a[j], a[j - 1];
  }

  /** Swaps the ORF at `i` to the left until the first `i + 1` ORFs are sorted by length. */
  method InsertByLength(a: array<Orf>, i: nat)
    requires i < a.Length && LengthAscending(a[..i])
    modifies a
    ensures LengthAscending(a[..i + 1])
    ensures forall k :: i < k < a.Length ==> a[k] == old(a[k])
    ensures multiset(a[..]) == multiset(old(a[..]))
  {
    var j := i;
    while j > 0 && a[j - 1].length > a[j].length
      invariant 0 <= j <= i
      invariant forall k :: i < k < a.Length ==> a[k] == old(a[k])
      invariant multiset(a[..]) == multiset(old(a[..]))
      invariant Inserting(a[..], i, j)
    {
      InsertStep(a[..], i, j);
      SwapAdjacent(a, j);
      j := j - 1;
    }
    Inserted(a[..], i, j);
  }

  /** `sort_by_key(|orf| orf.length)`: sorts the ORFs by non-decreasing length, in place. */
  method SortByLength(a: array<Orf>)
    modifies a
    ensures LengthAscending(a[..])
    ensures multiset(a[..]) == multiset(old(a[..]))
  {
    for i := 0 to a.Length
      invariant LengthAscending(a[..i])
      invariant multiset(a[..]) == multiset(old(a[..]))
    {
      InsertByLength(a, i);
    }
    assert a[..a.Length] == a[..];
  }

  /** `reverse`: reverses the ORFs in place. */
  method Reverse(a: array<Orf>)
    modifies a
    ensures forall k :: 0 <= k < a.Length ==> a[k] == old(a[a.Length - 1 - k])
    ensures multiset(a[..]) == multiset(old(a[..]))
  {
    var lo, hi := 0, a.Length - 1;
    while lo < hi
      invariant 0 <= lo <= a.Length && hi == a.Length - 1 - lo
      invariant forall k :: 0 <= k < lo || hi < k < a.Length ==> a[k] == old(a[a.Length - 1 - k])
      invariant forall k :: lo <= k <= hi ==> a[k] == old(a[k])
      invariant multiset(a[..]) == multiset(old(a[..]))
    {
      a[lo], a[hi] := a[hi], a[lo];
      lo, hi := lo + 1, hi - 1;
    }
  }

  /** The loop of `longest_orfs`: keeps each ORF whose stop is not yet in the set of seen stops. */
  method KeepLongest(orfs: seq<Orf>) returns (longest: seq<Orf>)
    ensures longest == KeepFirstPerStop(orfs)
  {
    longest := [];
    var seen: set<Option<nat>> := {};
    for i := 0 to |orfs|
      invariant longest == KeepFirstPerStop(orfs[..i])
      invariant seen == Stops(orfs[..i])
    {
      assert orfs[..i + 1][..i] == orfs[..i];
      if orfs[i].stop !in seen {
        seen := seen + {orfs[i].stop};
        longest := longest + [orfs[i]];
      }
    }
    assert orfs[..|orfs|] == orfs;
  }

  /**
   * `longest_orfs`: sorts the ORFs by length, reverses them (longest first) and
   * keeps, for each stop, the first ORF with that stop.
   */
  method LongestOrfs(orfs: array<Orf>) returns (longest: seq<Orf>)
    modifies orfs
    ensures multiset(orfs[..]) == multiset(old(orfs[..]))
    ensures LengthDescending(orfs[..])
    ensures longest == KeepFirstPerStop(orfs[..])
  {
    SortByLength(orfs);
    Reverse(orfs);
    longest := KeepLongest(orfs[..]);
  }

  // ---------------------------------------------------------------------------
  // One ORF per start codon
  // ---------------------------------------------------------------------------

  lemma {:induction false} OrfsFromAt(n: nat, stops: seq<seq<nat>>, starts: seq<nat>)
    requires |stops| == 3 && forall i :: 0 <= i < |starts| ==> starts[i] < n
    ensures |OrfsFrom(n, stops, starts)| == |starts|
    ensures forall i :: 0 <= i < |starts| ==> OrfsFrom(n, stops, starts)[i] == OrfFor(n, stops, starts[i])
  {
    if |starts| > 0 {
      OrfsFromAt(n, stops, starts[..|starts| - 1]);
    }
  }

  /**
   * `find_orfs` emits exactly one ORF per start codon, and the ORF emitted for
   * a start codon is the one `OrfOf` describes.
   */
  lemma OrfsOnePerStart(s: seq<Byte>)
    ensures |Orfs(s)| == |StartPositions(s)|
    ensures forall i :: 0 <= i < |Orfs(s)| ==>
              StartPositions(s)[i] < |s| && Orfs(s)[i] == OrfOf(s, StartPositions(s)[i])
    ensures forall x: nat :: x < |s| && Kind(CyclicCodon(s, x)) == StartCodon ==>
              exists i :: 0 <= i < |Orfs(s)| && Orfs(s)[i].start == x
  {
    var starts := StartPositions(s);
    assert forall i :: 0 <= i < |starts| ==> starts[i] in starts;
    OrfsFromAt(|s|, FrameLists(s, StopCodon), starts);
    forall x: nat | x < |s| && Kind(CyclicCodon(s, x)) == StartCodon
      ensures exists i :: 0 <= i < |Orfs(s)| && Orfs(s)[i].start == x
    {
      var i :| 0 <= i < |starts| && starts[i] == x;
      assert Orfs(s)[i] == OrfFor(|s|, FrameLists(s, StopCodon), x);
    }
  }

  // ---------------------------------------------------------------------------
  // Fixtures of the source's unit tests (lib/src/orfs.rs:239-307, 345-362)
  // ---------------------------------------------------------------------------

  /** Past its first element, an ascending list holds exactly its other elements. */
  lemma AscendingTail(a: seq<nat>)
    requires StrictlyAscending(a) && |a| > 0
    ensures forall x :: x in a[1..] <==> x in a && x != a[0]
  {
    forall x | x in a && x != a[0] ensures x in a[1..] {
      var m :| 0 <= m < |a| && a[m] == x;
      assert a[1..][m - 1] == x;
    }
  }

  /** Two ascending lists with the same elements are the same list. */
  lemma {:induction false} AscendingUnique(a: seq<nat>, b: seq<nat>)
    requires StrictlyAscending(a) && StrictlyAscending(b)
    requires forall x :: x in a <==> x in b
    ensures a == b
    decreases |a|
  {
    assert |a| > 0 ==> a[0] in b;
    assert |b| > 0 ==> b[0] in a;
    if |a| > 0 && |b| > 0 {
      var j :| 0 <= j < |b| && b[j] == a[0];
      var i :| 0 <= i < |a| && a[i] == b[0];
      assert a[0] <= a[i] && b[0] <= b[j];
      AscendingTail(a);
      AscendingTail(b);
      AscendingUnique(a[1..], b[1..]);
      assert a == [a[0]] + a[1..] && b == [b[0]] + b[1..];
    }
  }

  lemma HitsAre(s: seq<Byte>, k: CodonKind, f: nat, listed: seq<nat>)
    requires StrictlyAscending(listed)
    requires forall x: nat :: x in listed <==> x < |s| && Hit(s, k, f, x)
    ensures HitsBelow(s, k, f, |s|) == listed
  {
    AscendingUnique(HitsBelow(s, k, f, |s|), listed);
  }

  /** `s` spells "ATGATGTAG" base by base, the form the codon lemmas below read. */
  predicate SpellsAtgAtgTag(s: seq<Byte>)
  {
    |s| == 9 && s[0] == 'A' && s[1] == 'T' && s[2] == 'G' && s[3] == 'A' && s[4] == 'T' && s[5] == 'G' && s[6] == 'T' && s[7] == 'A' && s[8] == 'G'
  }

  lemma BasesAtgAtgTag(s: seq<Byte>)
    requires s == "ATGATGTAG"
    ensures SpellsAtgAtgTag(s)
  {
  }

  lemma CodonsAtgAtgTag(s: seq<Byte>)
    requires s == "ATGATGTAG"
    ensures forall x: nat :: x < 9 ==>
              (Kind(CyclicCodon(s, x)) == StartCodon <==> x == 0 || x == 3)
              && (Kind(CyclicCodon(s, x)) == StopCodon <==> x == 1 || x == 6)
  {
    BasesAtgAtgTag(s);
    CodonKindsAtgAtgTag0(s);
    CodonKindsAtgAtgTag1(s);
  }

  lemma CodonKindsAtgAtgTag0(s: seq<Byte>)
    requires SpellsAtgAtgTag(s)
    ensures forall x: nat :: 0 <= x < 5 ==>
              (Kind(CyclicCodon(s, x)) == StartCodon <==> x == 0 || x == 3)
              && (Kind(CyclicCodon(s, x)) == StopCodon <==> x == 1 || x == 6)
  {
    assert CyclicCodon(s, 0) == "ATG";
    assert CyclicCodon(s, 1) == "TGA";
    assert CyclicCodon(s, 2) == "GAT";
    assert CyclicCodon(s, 3) == "ATG";
    assert CyclicCodon(s, 4) == "TGT";
  }

  lemma CodonKindsAtgAtgTag1(s: seq<Byte>)
    requires SpellsAtgAtgTag(s)
    ensures forall x: nat :: 5 <= x < 9 ==>
              (Kind(CyclicCodon(s, x)) == StartCodon <==> x == 0 || x == 3)
              && (Kind(CyclicCodon(s, x)) == StopCodon <==> x == 1 || x == 6)
  {
    assert CyclicCodon(s, 5) == "GTA";
    assert CyclicCodon(s, 6) == "TAG";
    assert CyclicCodon(s, 7) == "AGA";
    assert CyclicCodon(s, 8) == "GAT";
  }

  lemma StopsAtgAtgTag(s: seq<Byte>)
    requires s == "ATGATGTAG"
    ensures FrameLists(s, StopCodon) == [[6], [1], []]
  {
    CodonsAtgAtgTag(s);
    HitsAre(s, StopCodon, 0, [6]);
    HitsAre(s, StopCodon, 1, [1]);
    HitsAre(s, StopCodon, 2, []);
  }

  lemma StartsAtgAtgTag(s: seq<Byte>)
    requires s == "ATGATGTAG"
    ensures StartPositions(s) == [0, 3]
  {
    CodonsAtgAtgTag(s);
    HitsAre(s, StartCodon, 0, [0, 3]);
    HitsAre(s, StartCodon, 1, []);
    HitsAre(s, StartCodon, 2, []);
  }

  lemma OrfsAtgAtgTag(s: seq<Byte>)
    requires s == "ATGATGTAG"
    ensures Orfs(s) == [Orf(0, Some(6), 0, 9), Orf(3, Some(6), 0, 6)]
  {
    StopsAtgAtgTag(s);
    StartsAtgAtgTag(s);
    OrfsOnePerStart(s);
    var stops := FrameLists(s, StopCodon);
    assert Orfs(s)[0] == OrfFor(9, stops, 0) == Orf(0, Some(6), 0, 9);
    assert Orfs(s)[1] == OrfFor(9, stops, 3) == Orf(3, Some(6), 0, 6);
  }

  /** `s` spells "GCATAAGCAATG" base by base, the form the codon lemmas below read. */
  predicate SpellsMod0Once(s: seq<Byte>)
  {
    |s| == 12 && s[0] == 'G' && s[1] == 'C' && s[2] == 'A' && s[3] == 'T' && s[4] == 'A' && s[5] == 'A' && s[6] == 'G' && s[7] == 'C' && s[8] == 'A' && s[9] == 'A' && s[10] == 'T' && s[11] == 'G'
  }

  lemma BasesMod0Once(s: seq<Byte>)
    requires s == "GCATAAGCAATG"
    ensures SpellsMod0Once(s)
  {
  }

  lemma CodonsMod0Once(s: seq<Byte>)
    requires s == "GCATAAGCAATG"
    ensures forall x: nat :: x < 12 ==>
              (Kind(CyclicCodon(s, x)) == StartCodon <==> x == 9)
              && (Kind(CyclicCodon(s, x)) == StopCodon <==> x == 3)
  {
    BasesMod0Once(s);
    CodonKindsMod0Once0(s);
    CodonKindsMod0Once1(s);
    CodonKindsMod0Once2(s);
  }

  lemma CodonKindsMod0Once0(s: seq<Byte>)
    requires SpellsMod0Once(s)
    ensures forall x: nat :: 0 <= x < 5 ==>
              (Kind(CyclicCodon(s, x)) == StartCodon <==> x == 9)
              && (Kind(CyclicCodon(s, x)) == StopCodon <==> x == 3)
  {
    assert CyclicCodon(s, 0) == "GCA";
    assert CyclicCodon(s, 1) == "CAT";
    assert CyclicCodon(s, 2) == "ATA";
    assert CyclicCodon(s, 3) == "TAA";
    assert CyclicCodon(s, 4) == "AAG";
  }

  lemma CodonKindsMod0Once1(s: seq<Byte>)
    requires SpellsMod0Once(s)
    ensures forall x: nat :: 5 <= x < 10 ==>
              (Kind(CyclicCodon(s, x)) == StartCodon <==> x == 9)
              && (Kind(CyclicCodon(s, x)) == StopCodon <==> x == 3)
  {
    assert CyclicCodon(s, 5) == "AGC";
    assert CyclicCodon(s, 6) == "GCA";
    assert CyclicCodon(s, 7) == "CAA";
    assert CyclicCodon(s, 8) == "AAT";
    assert CyclicCodon(s, 9) == "ATG";
  }

  lemma CodonKindsMod0Once2(s: seq<Byte>)
    requires SpellsMod0Once(s)
    ensures forall x: nat :: 10 <= x < 12 ==>
              (Kind(CyclicCodon(s, x)) == StartCodon <==> x == 9)
              && (Kind(CyclicCodon(s, x)) == StopCodon <==> x == 3)
  {
    assert CyclicCodon(s, 10) == "TGG";
    assert CyclicCodon(s, 11) == "GGC";
  }

  lemma StopsMod0Once(s: seq<Byte>)
    requires s == "GCATAAGCAATG"
    ensures FrameLists(s, StopCodon) == [[3], [], []]
  {
    CodonsMod0Once(s);
    HitsAre(s, StopCodon, 0, [3]);
    HitsAre(s, StopCodon, 1, []);
    HitsAre(s, StopCodon, 2, []);
  }

  lemma StartsMod0Once(s: seq<Byte>)
    requires s == "GCATAAGCAATG"
    ensures StartPositions(s) == [9]
  {
    CodonsMod0Once(s);
    HitsAre(s, StartCodon, 0, [9]);
    HitsAre(s, StartCodon, 1, []);
    HitsAre(s, StartCodon, 2, []);
  }

  /** `wrap_around_once_mod_0`: the stop lies before the start in the same frame. */
  lemma OrfsMod0Once(s: seq<Byte>)
    requires s == "GCATAAGCAATG"
    ensures Orfs(s) == [Orf(9, Some(3), 0, 9)]
  {
    StopsMod0Once(s);
    StartsMod0Once(s);
    OrfsOnePerStart(s);
  }

  /** `s` spells "GCATAAGATG" base by base, the form the codon lemmas below read. */
  predicate SpellsMod1Once(s: seq<Byte>)
  {
    |s| == 10 && s[0] == 'G' && s[1] == 'C' && s[2] == 'A' && s[3] == 'T' && s[4] == 'A' && s[5] == 'A' && s[6] == 'G' && s[7] == 'A' && s[8] == 'T' && s[9] == 'G'
  }

  lemma BasesMod1Once(s: seq<Byte>)
    requires s == "GCATAAGATG"
    ensures SpellsMod1Once(s)
  {
  }

  lemma CodonsMod1Once(s: seq<Byte>)
    requires s == "GCATAAGATG"
    ensures forall x: nat :: x < 10 ==>
              (Kind(CyclicCodon(s, x)) == StartCodon <==> x == 7)
              && (Kind(CyclicCodon(s, x)) == StopCodon <==> x == 3)
  {
    BasesMod1Once(s);
    CodonKindsMod1Once0(s);
    CodonKindsMod1Once1(s);
  }

  lemma CodonKindsMod1Once0(s: seq<Byte>)
    requires SpellsMod1Once(s)
    ensures forall x: nat :: 0 <= x < 5 ==>
              (Kind(CyclicCodon(s, x)) == StartCodon <==> x == 7)
              && (Kind(CyclicCodon(s, x)) == StopCodon <==> x == 3)
  {
    assert CyclicCodon(s, 0) == "GCA";
    assert CyclicCodon(s, 1) == "CAT";
    assert CyclicCodon(s, 2) == "ATA";
    assert CyclicCodon(s, 3) == "TAA";
    assert CyclicCodon(s, 4) == "AAG";
  }

  lemma CodonKindsMod1Once1(s: seq<Byte>)
    requires SpellsMod1Once(s)
    ensures forall x: nat :: 5 <= x < 10 ==>
              (Kind(CyclicCodon(s, x)) == StartCodon <==> x == 7)
              && (Kind(CyclicCodon(s, x)) == StopCodon <==> x == 3)
  {
    assert CyclicCodon(s, 5) == "AGA";
    assert CyclicCodon(s, 6) == "GAT";
    assert CyclicCodon(s, 7) == "ATG";
    assert CyclicCodon(s, 8) == "TGG";
    assert CyclicCodon(s, 9) == "GGC";
  }

  lemma StopsMod1Once(s: seq<Byte>)
    requires s == "GCATAAGATG"
    ensures FrameLists(s, StopCodon) == [[3], [], []]
  {
    CodonsMod1Once(s);
    HitsAre(s, StopCodon, 0, [3]);
    HitsAre(s, StopCodon, 1, []);
    HitsAre(s, StopCodon, 2, []);
  }

  lemma StartsMod1Once(s: seq<Byte>)
    requires s == "GCATAAGATG"
    ensures StartPositions(s) == [7]
  {
    CodonsMod1Once(s);
    HitsAre(s, StartCodon, 0, []);
    HitsAre(s, StartCodon, 1, [7]);
    HitsAre(s, StartCodon, 2, []);
  }

  /** `wrap_around_once_mod_1`: one frame shift across the end. */
  lemma OrfsMod1Once(s: seq<Byte>)
    requires s == "GCATAAGATG"
    ensures Orfs(s) == [Orf(7, Some(3), 1, 9)]
  {
    StopsMod1Once(s);
    StartsMod1Once(s);
    OrfsOnePerStart(s);
  }

  /** `s` spells "ATGAAAAAAAAAA" base by base, the form the codon lemmas below read. */
  predicate SpellsMod1Twice(s: seq<Byte>)
  {
    |s| == 13 && s[0] == 'A' && s[1] == 'T' && s[2] == 'G' && s[3] == 'A' && s[4] == 'A' && s[5] == 'A' && s[6] == 'A' && s[7] == 'A' && s[8] == 'A' && s[9] == 'A' && s[10] == 'A' && s[11] == 'A' && s[12] == 'A'
  }

  lemma BasesMod1Twice(s: seq<Byte>)
    requires s == "ATGAAAAAAAAAA"
    ensures SpellsMod1Twice(s)
  {
  }

  lemma CodonsMod1Twice(s: seq<Byte>)
    requires s == "ATGAAAAAAAAAA"
    ensures forall x: nat :: x < 13 ==>
              (Kind(CyclicCodon(s, x)) == StartCodon <==> x == 0)
              && (Kind(CyclicCodon(s, x)) == StopCodon <==> x == 1)
  {
    BasesMod1Twice(s);
    CodonKindsMod1Twice0(s);
    CodonKindsMod1Twice1(s);
    CodonKindsMod1Twice2(s);
  }

  lemma CodonKindsMod1Twice0(s: seq<Byte>)
    requires SpellsMod1Twice(s)
    ensures forall x: nat :: 0 <= x < 5 ==>
              (Kind(CyclicCodon(s, x)) == StartCodon <==> x == 0)
              && (Kind(CyclicCodon(s, x)) == StopCodon <==> x == 1)
  {
    assert CyclicCodon(s, 0) == "ATG";
    assert CyclicCodon(s, 1) == "TGA";
    assert CyclicCodon(s, 2) == "GAA";
    assert CyclicCodon(s, 3) == "AAA";
    assert CyclicCodon(s, 4) == "AAA";
  }

  lemma CodonKindsMod1Twice1(s: seq<Byte>)
    requires SpellsMod1Twice(s)
    ensures forall x: nat :: 5 <= x < 10 ==>
              (Kind(CyclicCodon(s, x)) == StartCodon <==> x == 0)
              && (Kind(CyclicCodon(s, x)) == StopCodon <==> x == 1)
  {
    assert CyclicCodon(s, 5) == "AAA";
    assert CyclicCodon(s, 6) == "AAA";
    assert CyclicCodon(s, 7) == "AAA";
    assert CyclicCodon(s, 8) == "AAA";
    assert CyclicCodon(s, 9) == "AAA";
  }

  lemma CodonKindsMod1Twice2(s: seq<Byte>)
    requires SpellsMod1Twice(s)
    ensures forall x: nat :: 10 <= x < 13 ==>
              (Kind(CyclicCodon(s, x)) == StartCodon <==> x == 0)
              && (Kind(CyclicCodon(s, x)) == StopCodon <==> x == 1)
  {
    assert CyclicCodon(s, 10) == "AAA";
    assert CyclicCodon(s, 11) == "AAA";
    assert CyclicCodon(s, 12) == "AAT";
  }

  lemma StopsMod1Twice(s: seq<Byte>)
    requires s == "ATGAAAAAAAAAA"
    ensures FrameLists(s, StopCodon) == [[], [1], []]
  {
    CodonsMod1Twice(s);
    HitsAre(s, StopCodon, 0, []);
    HitsAre(s, StopCodon, 1, [1]);
    HitsAre(s, StopCodon, 2, []);
  }

  lemma StartsMod1Twice(s: seq<Byte>)
    requires s == "ATGAAAAAAAAAA"
    ensures StartPositions(s) == [0]
  {
    CodonsMod1Twice(s);
    HitsAre(s, StartCodon, 0, [0]);
    HitsAre(s, StartCodon, 1, []);
    HitsAre(s, StartCodon, 2, []);
  }

  /** `wrap_around_twice_mod_1`: two frame shifts across the end. */
  lemma OrfsMod1Twice(s: seq<Byte>)
    requires s == "ATGAAAAAAAAAA"
    ensures Orfs(s) == [Orf(0, Some(1), 2, 30)]
  {
    StopsMod1Twice(s);
    StartsMod1Twice(s);
    OrfsOnePerStart(s);
  }

  /** `longest_orf_small`: of the two ORFs ending at the same stop, the longer one is kept. */
  lemma LongestOrfSmall(s: seq<Byte>, sorted: seq<Orf>)
    requires s == "ATGATGTAG"
    requires multiset(sorted) == multiset(Orfs(s)) && LengthDescending(sorted)
    ensures KeepFirstPerStop(sorted) == [Orf(0, Some(6), 0, 9)]
  {
    OrfsAtgAtgTag(s);
    var a, b := Orf(0, Some(6), 0, 9), Orf(3, Some(6), 0, 6);
    assert |sorted| == 2;
    assert sorted[0] in multiset(sorted) && sorted[1] in multiset(sorted);
    assert a in multiset(sorted) && b in multiset(sorted);
    assert sorted == [a, b];
    assert sorted[..1] == [a];
  }
}
