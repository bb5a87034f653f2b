# circkit core in Dafny

circkit is a toolkit for circular DNA. This project models four parts of its library:

- **Canonicalisation** (`lib/src/canonicalize.rs`). `lmsr_index` finds the start of the "lexicographically minimal string rotation" of a circular sequence. `lmsr` rotates the sequence to start there. `canonicalize` chooses between that rotation and the rotation computed the same way for the reverse-complement strand.
- **Monomerisation** (`lib/src/monomerize.rs`). A circular genome read as one linear read often repeats its start at its end. The monomerizer takes the last `seed_len` bases as a seed and finds every earlier occurrence of it with rust-bio's `ShiftAnd`. For each occurrence in order it compares the overlap with the read's suffix, allowing up to `overlap_dist` mismatches or requiring `overlap_min_identity`. The first occurrence that passes gives a monomer end. `last_monomer_end_index` repeats this on the shortened read until nothing more is found. `monomerize` cuts the read there. The `_sensitive` variants do one more pass on the reverse complement.
- **The earlier monomerizer** (`lib/src/monomerize2.rs`). It visits every occurrence of the seed. It compares from the last accepted occurrence onwards and returns what follows the last accepted one.
- **Open reading frames** (`lib/src/orfs.rs`). `find_orfs` records, for each reading frame, where start codons (`ATG`) and stop codons (`TAA`, `TAG`, `TGA`) begin, reading codons across the end of the circle. It emits one ORF per start codon and follows the frame across the end of the sequence up to three times. `longest_orfs` sorts by length, longest first, and keeps one ORF per stop codon.

Bytes are characters below 256, so ASCII sequences can be written as string literals. Each module keeps the source's structure:

- Loops are methods. Each method is proved equal to a function that describes the same computation as a value (`LmsrIndexLoop`, `FirstMonomerEndIndex`, `LastMonomerEndIndex`, `Monomerize2.Monomerize`, `FindOrfs`).
- Those functions are then related to independent definitions of what the code is for:
  - a monomer end is a seed repeat whose overlap passes (`IsMonomerEnd`);
  - an ORF starts at `ATG`, reads whole codons in its frame with no stop codon before its own, and ends at a stop codon;
  - a minimal rotation has no smaller rotation.
- `longest_orfs` sorts and reverses an array in place, because the source does so to its `Vec`.

Files:

| file | contents |
|---|---|
| `wrappers.dfy` | `Option` and `Result` |
| `bytes.dfy` | bytes, lexicographic order, Hamming distance |
| `dna.dfy` | complement and reverse complement |
| `modular.dfy` | facts about remainders |
| `seed_match.dfy` | the offsets that `ShiftAnd::find_all` yields |
| `canonicalize.dfy` | `lmsr_index`, `lmsr`, `canonicalize` |
| `min_rotation.dfy` | the documented minimal rotation and canonical form |
| `monomerize.dfy` | `lib/src/monomerize.rs` |
| `monomerize2.dfy` | `lib/src/monomerize2.rs` |
| `orfs.dfy` | `lib/src/orfs.rs` |

## Model

| member | source | states |
|---|---|---|
| Bytes.LexLessIrreflexive | lib/src/canonicalize.rs:87 | No slice is smaller than itself under the byte-wise `<` used to choose the canonical strand. |
| Bytes.LexLessAsymmetric | lib/src/canonicalize.rs:87 | If `a < b` then not `b < a`. |
| Bytes.LexLessTransitive | lib/src/canonicalize.rs:87 | The slice order is transitive. |
| Bytes.LexLessTotal | lib/src/canonicalize.rs:87 | Any two different slices are ordered one way or the other. |
| Bytes.Hamming | lib/src/monomerize.rs:67 | The Hamming distance of two equal-length slices is at most their length. |
| Bytes.HammingZero | lib/src/monomerize.rs:67 | The distance is zero exactly when the slices are equal. |
| Bytes.HammingSymmetric | lib/src/monomerize.rs:67 | The distance does not depend on argument order. |
| Dna.ComplementInvolution | lib/src/canonicalize.rs:85 | Complementing a base twice gives it back. |
| Dna.RevComp | lib/src/canonicalize.rs:85 | The reverse complement has the length of its input. |
| Dna.RevCompAt | lib/src/monomerize.rs:127 | Byte `i` of the reverse complement is the complement of byte `n - 1 - i`. |
| Dna.RevCompInvolution | lib/src/monomerize.rs:127 | Taking the reverse complement twice gives the input back. |
| SeedMatch.OccurrencesFrom | lib/src/monomerize.rs:60-62 | Yields exactly the offsets at or after `from` where the seed occurs, strictly ascending. |
| SeedMatch.FindAll | lib/src/monomerize.rs:60-62 | `find_all` yields every occurrence of a seed of 1 to 64 bytes and nothing else, strictly ascending. |
| SeedMatch.NoOccurrenceBetween | lib/src/monomerize.rs:62 | No occurrence lies strictly between two consecutive offsets that `find_all` yields. |
| SeedMatch.FindAllNone | lib/src/monomerize2.rs:68 | A seed that occurs nowhere yields no offsets. |
| SeedMatch.FindAllSingle | lib/src/monomerize2.rs:68 | A seed that occurs only at `p` yields exactly `[p]`. |
| SeedMatch.FindAllPair | lib/src/monomerize2.rs:68 | A seed that occurs only at `p1 < p2` yields exactly `[p1, p2]`. |
| Canonicalize.Rotation | lib/src/canonicalize.rs:52-55 | `s[k..] ++ s[..k]` has the length of `s`. |
| Canonicalize.RotationAt | lib/src/canonicalize.rs:52-55 | Byte `i` of the rotation at `k` is byte `(k + i) mod n` of the input. |
| Canonicalize.RotationOfRotation | lib/src/canonicalize.rs:75-80 | Rotating by `a` and then by `b` is rotating by `(a + b) mod n`. |
| Canonicalize.RevCompOfRotation | lib/src/canonicalize.rs:83-85 | The reverse complement of the rotation at `k` is the rotation of the reverse complement at `(n - k) mod n`. |
| Canonicalize.RotationIsRotation | lib/src/canonicalize.rs:50-57 | Every `Rotation(s, k)` is a rotation of `s`. |
| Canonicalize.RotationOfRotationIsRotation | lib/src/canonicalize.rs:75-80 | A rotation of a rotation of `s` is a rotation of `s`. |
| Canonicalize.Scan | lib/src/canonicalize.rs:10-19 | The comparison loop leaves `j` within `[j0, n]` and `k` within `[i, j)`. |
| Canonicalize.Skip | lib/src/canonicalize.rs:20-22 | The skip loop moves `i` past `k`, at most to `j` when it runs, and leaves `i` alone otherwise. |
| Canonicalize.LmsrFrom | lib/src/canonicalize.rs:8-23 | The outer loop from a candidate `i < n` answers an index in `[i, n)`. At `i = n` it keeps the last answer. |
| Canonicalize.LmsrIndex | lib/src/canonicalize.rs:4-25 | `lmsr_index` is an index into a non-empty input and 0 for the empty input. |
| Canonicalize.ScanLoop | lib/src/canonicalize.rs:10-19 | The inner `while` loop computes `Scan` from `j = i + 1`, `k = i`. |
| Canonicalize.SkipLoop | lib/src/canonicalize.rs:20-22 | The skip loop computes `Skip`. |
| Canonicalize.LmsrIndexLoop | lib/src/canonicalize.rs:4-25 | The three nested loops compute `LmsrIndex`. |
| Canonicalize.Lmsr | lib/src/canonicalize.rs:50-57 | `lmsr` returns a rotation of its input, of the same length. |
| Canonicalize.LmsrContents | lib/src/canonicalize.rs:50-57 | `lmsr` permutes the input's bytes. Byte `i` of the result is byte `(lmsr_index + i) mod n` of the input. |
| Canonicalize.Canonicalize | lib/src/canonicalize.rs:83-92 | The result is one of the two candidates and no larger than either. It is the first candidate iff that one is smaller or they are equal. It is a rotation of the input or of its reverse complement. |
| Canonicalize.CanonicalRevCompIsRotation | lib/src/canonicalize.rs:84-85 | The second candidate is a rotation of the input's reverse complement. |
| Canonicalize.LmsrIndexUniform3 | lib/src/canonicalize.rs:4-25 | On any three equal bytes (such as "AAA" or "TTT") `lmsr_index` returns 0. |
| Canonicalize.LmsrIndexLeastFirst3 | lib/src/canonicalize.rs:4-25 | On three bytes whose first is below the other two (such as "ATT") `lmsr_index` returns 0. |
| Canonicalize.LmsrIndexAaa | lib/src/canonicalize.rs:31-34 | `lmsr_index("AAA") = 0`. |
| Canonicalize.LmsrIndexBanana | lib/src/canonicalize.rs:36-39 | `lmsr_index("banana") = 5`. |
| Canonicalize.LmsrIndexTaa | lib/src/canonicalize.rs:41-44 | `lmsr_index("TAA") = 1`. |
| Canonicalize.LmsrAaa | lib/src/canonicalize.rs:62-65 | `lmsr("AAA") = "AAA"`. |
| Canonicalize.LmsrBanana | lib/src/canonicalize.rs:66-69 | `lmsr("banana") = "abanan"`. |
| Canonicalize.LmsrTaa | lib/src/canonicalize.rs:70-73 | `lmsr("TAA") = "AAT"`. |
| Canonicalize.LmsrIndexAtgcagatacaga | lib/src/canonicalize.rs:75-80 | `lmsr_index("ATGCAGATACAGA") = 12`. |
| Canonicalize.LmsrAtgcagatacaga | lib/src/canonicalize.rs:75-80 | `lmsr("ATGCAGATACAGA") = "AATGCAGATACAG"`. |
| Canonicalize.LmsrIndexAatgcagatacag | lib/src/canonicalize.rs:75-80 | `lmsr_index("AATGCAGATACAG") = 0`. |
| Canonicalize.LmsrAatgcagatacag | lib/src/canonicalize.rs:75-80 | `lmsr` leaves "AATGCAGATACAG" unchanged. |
| Canonicalize.LmsrSecondApplicationIdentical | lib/src/canonicalize.rs:75-80 | Applying `lmsr` to its own output on "ATGCAGATACAGA" changes nothing. |
| Canonicalize.LmsrTtt | lib/src/canonicalize.rs:97-100 | `lmsr("TTT") = "TTT"`. |
| Canonicalize.CanonicalizeAaa | lib/src/canonicalize.rs:97-100 | `canonicalize("AAA") = "AAA"`. |
| Canonicalize.LmsrIndexAtt | lib/src/canonicalize.rs:101-104 | `lmsr_index("ATT") = 0`. |
| Canonicalize.LmsrAtt | lib/src/canonicalize.rs:101-104 | `lmsr("ATT") = "ATT"`. |
| Canonicalize.LmsrIndexAat | lib/src/canonicalize.rs:101-104 | `lmsr_index("AAT") = 0`, the reverse-complement candidate for "ATT". |
| Canonicalize.LmsrAat | lib/src/canonicalize.rs:101-104 | `lmsr("AAT") = "AAT"`. |
| Canonicalize.CanonicalizeAtt | lib/src/canonicalize.rs:101-104 | `canonicalize("ATT") = "AAT"`: the reverse-complement strand wins. |
| Canonicalize.LmsrIndexBaaba | lib/src/canonicalize.rs:4-25 | `lmsr_index("BAABA") = 4`. |
| Canonicalize.LmsrIndexNotMinimal | lib/src/canonicalize.rs:3-25 | On "BAABA", `lmsr` returns "ABAAB", yet rotation 1 ("AABAB") is smaller. |
| MinimalRotation.MinRotationFrom | lib/src/canonicalize.rs:3-4 | The scan over the remaining rotations answers the current best or a later index, inside the sequence. |
| MinimalRotation.MinRotationIndex | lib/src/canonicalize.rs:3-4 | The index of the minimal rotation lies inside a non-empty input and is 0 for the empty input. |
| MinimalRotation.MinRotation | lib/src/canonicalize.rs:47-50 | The minimal rotation is a rotation of its input, of the same length. |
| MinimalRotation.MinRotationFromMinimal | lib/src/canonicalize.rs:3-4 | The scan's answer has no rotation below it. |
| MinimalRotation.MinRotationIsMinimal | lib/src/canonicalize.rs:3-4 | No rotation of `s` is lexicographically smaller than `MinRotation(s)`. |
| MinimalRotation.MinimalRotationUnique | lib/src/canonicalize.rs:47-50 | A rotation that no rotation undercuts equals `MinRotation(s)`. |
| MinimalRotation.RotationThroughRotation | lib/src/canonicalize.rs:75-80 | Every rotation of `s` is a rotation of any given rotation of `s`. |
| MinimalRotation.MinRotationOfRotation | lib/src/canonicalize.rs:75-80 | Rotating the input first does not change its minimal rotation, so a second application changes nothing. |
| MinimalRotation.MinRotationOfAnyRotation | lib/src/canonicalize.rs:75-80 | Two rotations of the same sequence have the same minimal rotation. |
| MinimalRotation.RevCompOfRotationIsRotation | lib/src/canonicalize.rs:84-85 | The reverse complement of a rotation of `s` is a rotation of the reverse complement of `s`. |
| MinimalRotation.CanonicalForm | lib/src/canonicalize.rs:83-92 | The canonical form is a rotation of the input or of its reverse complement, of the same length. |
| MinimalRotation.SecondCandidate | lib/src/canonicalize.rs:84-85 | The second candidate depends only on the reverse-complement strand. |
| MinimalRotation.CanonicalFormMinimal | lib/src/canonicalize.rs:83-92 | No rotation of either strand is smaller than the canonical form. |
| MinimalRotation.CanonicalFormRotationInvariant | lib/src/canonicalize.rs:83-92 | Every rotation of a circular sequence has the same canonical form. |
| MinimalRotation.CanonicalFormStrandInvariant | lib/src/canonicalize.rs:83-92 | Both strands have the same canonical form. |
| MinimalRotation.CanonicalFormIdempotent | lib/src/canonicalize.rs:83-92 | Canonicalising a canonical form changes nothing. |
| MinimalRotation.MinRotationBaaba | lib/src/canonicalize.rs:3-25 | The minimal rotation of "BAABA" is "AABAB", which is smaller than what `lmsr` returns. |
| Monomerize.Validate | lib/src/monomerize.rs:20-40 | Validation fails iff both limits are set or a set seed length is outside 1..=63. Both limits set is reported first. |
| Monomerize.Build | lib/src/monomerize.rs:6-40 | `build` succeeds iff validation passes and the seed length is set. A built monomerizer carries the builder's fields and a seed of 1..=63. Otherwise it reports the missing seed length. |
| Monomerize.BuildFixtures | lib/src/monomerize.rs:390-414 | An unset seed, seeds of 100 and 0, and both limits set are refused. A valid builder builds. |
| Monomerize.MaxDist | lib/src/monomerize.rs:70-76 | Without an identity the allowance is `overlap_dist`, defaulting to 0. With one, it is at most the overlap length. |
| Monomerize.MaxDistFloor | lib/src/monomerize.rs:70-76 | With an identity `p`, `len - MaxDist` is the floor of `len * p`: the mismatches allowed round down in bases. |
| Monomerize.MaxDistRoundsDown | lib/src/monomerize.rs:445-474 | At identities 0.95, 0.94 and 0.90, overlaps of 19 and 20 bases allow 1, 2, 2, 2 and 1 mismatches. |
| Monomerize.QualifiesIsMonomerEnd | lib/src/monomerize.rs:62-93 | Occurrence `occ` passes the loop's test iff `n - occ - seed_len` is a monomer end: the seed repeats there and the prefix and suffix are within `MaxDist`. |
| Monomerize.FirstQualifying | lib/src/monomerize.rs:62-94 | The first passing occurrence at or after `o`. No offset before it passes. |
| Monomerize.FirstMonomerEnd | lib/src/monomerize.rs:48-96 | None when the read is no longer than the seed. Otherwise a monomer end within `[seed_len, n - seed_len]`. |
| Monomerize.FirstMonomerEndLargest | lib/src/monomerize.rs:48-96 | Every monomer end is at most the one returned: the first occurrence that passes gives the largest monomer end, that is the shortest overlap. |
| Monomerize.MonomerEndsQualify | lib/src/monomerize.rs:62-93 | Every monomer end comes from an occurrence that passes. |
| Monomerize.FirstMonomerEndIndex | lib/src/monomerize.rs:48-96 | The loop over `find_all` returns `FirstMonomerEnd`. |
| Monomerize.LoopBodyTest | lib/src/monomerize.rs:63-91 | The loop body's Hamming test on `seq[..occ + seed_len]` is `Qualifies`. |
| Monomerize.NotQualifyingBefore | lib/src/monomerize.rs:62 | An offset before the `i`-th occurrence is no occurrence, or an earlier occurrence that failed. |
| Monomerize.FirstQualifyingOccurrence | lib/src/monomerize.rs:62-93 | The first occurrence of `find_all` that passes gives `FirstMonomerEnd`. |
| Monomerize.NoQualifyingOccurrence | lib/src/monomerize.rs:94-95 | When no occurrence passes, there is no monomer end. |
| Monomerize.LastFrom | lib/src/monomerize.rs:100-112 | The `while let` loop ends at a boundary no larger than where it began, and at least the seed length when it began there. The prefix it leaves has no monomer end. |
| Monomerize.LastMonomerEnd | lib/src/monomerize.rs:97-120 | Some iff the first pass finds a monomer end. It is at most the first one, and the prefix it leaves has no monomer end. |
| Monomerize.LastMonomerEndIndex | lib/src/monomerize.rs:97-120 | The loop computes `LastMonomerEnd`. |
| Monomerize.LastMonomerEndSensitive | lib/src/monomerize.rs:122-135 | None iff neither the forward passes nor the reverse-complement pass find an end. Otherwise the end lies in `[seed_len, LastMonomerEnd]`. |
| Monomerize.SensitiveBoundary | lib/src/monomerize.rs:125-133 | When the reverse-complement pass moves the boundary, the new boundary is a monomer end of the reverse complement of the monomer. |
| Monomerize.Monomerize | lib/src/monomerize.rs:138-144 | The result is a prefix of the read, strictly shorter iff a monomer end exists. It has no monomer end left. |
| Monomerize.MonomerizeIdempotent | lib/src/monomerize.rs:138-144 | Monomerizing a monomer changes nothing. |
| Monomerize.MonomerizeSensitive | lib/src/monomerize.rs:146-152 | A prefix of the read, no longer than `monomerize`'s. It is the whole read iff the sensitive pass finds nothing. |
| Monomerize.MonomerizeIdenticalRepeat | lib/src/monomerize.rs:177-181 | "ATGCATGC" with seed 4 or 2 and any distance gives "ATGC". |
| Monomerize.SeedRepeatedFirstPass | lib/src/monomerize.rs:314-327 | On "TGCCAATGCATGCCAATGC" the first pass ends the monomer at 10. |
| Monomerize.SeedRepeatedSecondPass | lib/src/monomerize.rs:314-327 | "TGCCAATGCA" has no monomer end. |
| Monomerize.MonomerizeSeedRepeated | lib/src/monomerize.rs:314-327 | "TGCCAATGCATGCCAATGC" with seed 4 and distance 0 gives "TGCCAATGCA". |
| Monomerize.TrimerFirstPass | lib/src/monomerize.rs:250-264 | On three copies of "AAAAATTTTT" with seed 5, the first pass ends at 20. |
| Monomerize.DimerFirstPass | lib/src/monomerize.rs:250-264 | On two copies, the pass ends at 10. |
| Monomerize.MonomerFirstPass | lib/src/monomerize.rs:250-264 | One copy has no monomer end. |
| Monomerize.MonomerizeIdenticalTrimer | lib/src/monomerize.rs:250-264 | Three identical copies come down to one, with seed 5 and any distance. |
| Monomerize2.Validate | lib/src/monomerize2.rs:20-40 | As in `monomerize.rs`, but a seed may be up to 64 bytes. |
| Monomerize2.Build | lib/src/monomerize2.rs:6-40 | `build` succeeds iff validation passes and the seed length is set. The result has a seed of 1..=64. |
| Monomerize2.BuildFixtures | lib/src/monomerize2.rs:266-290 | Unset, 100 and 0 are refused. 64 is accepted here but refused by the other builder. |
| Monomerize2.LastMatchOf | lib/src/monomerize2.rs:59-90 | `last_match` after visiting the occurrences is one of them, or None. |
| Monomerize2.LastMatchOfStep | lib/src/monomerize2.rs:68-90 | Visiting one more occurrence moves `last_match` to it exactly when its window passes. |
| Monomerize2.LastMatchOfFinal | lib/src/monomerize2.rs:68-90 | After the loop, no occurrence after `last_match` passes when compared from `last_match`. |
| Monomerize2.LastMatchOfPassed | lib/src/monomerize2.rs:68-90 | A final `last_match` is one of the occurrences, and that occurrence passed the window test when the loop visited it, against the `last_match` of that moment. |
| Monomerize2.PassedAtPrefix | lib/src/monomerize2.rs:68-90 | Whether an occurrence passed depends only on the occurrences visited before it. |
| Monomerize2.AcceptsTest | lib/src/monomerize2.rs:70-87 | The loop body's Hamming test is `Accepts`. |
| Monomerize2.FindAllOffsets | lib/src/monomerize2.rs:61-68 | The offsets `find_all` yields ascend and leave room for the seed before the final seed. |
| Monomerize2.LastMatch | lib/src/monomerize2.rs:59-90 | The final `last_match` is an occurrence of the seed. |
| Monomerize2.LastMatchAfterAll | lib/src/monomerize2.rs:59-90 | `LastMatch` is `last_match` after every occurrence `find_all` yields. |
| Monomerize2.Cut | lib/src/monomerize2.rs:92-95 | The cut lies within the read. It is 0 when the read is shorter than the seed. Otherwise it ends an occurrence of the seed. |
| Monomerize2.MonomerSuffixIsSuffix | lib/src/monomerize2.rs:47-96 | The result is a suffix of the read. It is the whole read when the read is shorter than the seed, and otherwise starts right after an occurrence of the seed. |
| Monomerize2.MonomerSuffixOfLastMatch | lib/src/monomerize2.rs:92-95 | The result is the read after the last accepted occurrence's seed, or the whole read. |
| Monomerize2.VisitOccurrences | lib/src/monomerize2.rs:68-90 | The `for` loop computes `LastMatchOf`. |
| Monomerize2.Monomerize | lib/src/monomerize2.rs:47-96 | `monomerize` returns `MonomerSuffix`. |
| Monomerize2.IdenticalRepeat | lib/src/monomerize2.rs:116-127 | "ATGCATGC" with seed 2 and distance 1 gives "ATGC". |
| Monomerize2.NoOverlapAtAll | lib/src/monomerize2.rs:104-115 | Twelve T then ten A with seed 10 is returned whole. |
| Monomerize2.SeedRepeated | lib/src/monomerize2.rs:235-248 | "TGCCAATGCATGCCAATGC" with seed 4 and distance 0 gives "ATGCCAATGC": the seed repeated at 9 fails its overlap. |
| Orfs.CodonInside | lib/src/orfs.rs:41-48 | Away from the end, `seq[i..i + 3]` is the codon at `i`. |
| Orfs.PenultimateCodon | lib/src/orfs.rs:68-74 | The penultimate codon read across the end is the cyclic codon at `n - 2`. |
| Orfs.UltimateCodon | lib/src/orfs.rs:76-82 | The ultimate codon read across the end is the cyclic codon at `n - 1`. |
| Orfs.HitsBelow | lib/src/orfs.rs:32-82 | The list for one frame holds exactly the positions below `m` in that frame whose codon is of the kind, ascending. |
| Orfs.FrameListsStep | lib/src/orfs.rs:41-48 | Visiting position `i` pushes `i` onto list `i mod 3` exactly when its codon is of the kind. |
| Orfs.FileCodon | lib/src/orfs.rs:41-48 | Filing one codon extends both sets of frame lists by position `i`. |
| Orfs.ScanCodons | lib/src/orfs.rs:32-82 | The scan, with its two codons across the end, builds `FrameLists` for start and stop codons. |
| Orfs.StartPositions | lib/src/orfs.rs:87-92 | The concatenated start lists hold exactly the positions whose cyclic codon is `ATG`. |
| Orfs.Find | lib/src/orfs.rs:96-105 | `find` returns an element satisfying the predicate, or None when no element does. |
| Orfs.FindLeast | lib/src/orfs.rs:96-105 | On an ascending list, `find` returns the least element satisfying the predicate. |
| Orfs.OrfAt | lib/src/orfs.rs:87-214 | The loop body with its running `orf_length` computes `OrfFor`. |
| Orfs.OrfsLoop | lib/src/orfs.rs:87-215 | The loop pushes one ORF per start position, in order. |
| Orfs.FindOrfs | lib/src/orfs.rs:31-217 | `find_orfs` returns `Orfs(s)`. |
| Orfs.ShapeInFrame | lib/src/orfs.rs:94-121 | With a sequence length divisible by three, the ORF has whole codons and no frame shift. Its stop is in the stop lists and is where its last codon begins. Without a stop it covers the circle once. |
| Orfs.ShapeAcrossEnd | lib/src/orfs.rs:147-213 | Following the frame across the end one to three times also gives whole codons ending at a listed stop. Without a stop, the ORF takes three shifts and three times the sequence length. |
| Orfs.ShapeShifting | lib/src/orfs.rs:124-213 | With a sequence length not divisible by three, the ORF has whole codons ending at a listed stop where its last codon begins. Without a stop it covers three laps. |
| Orfs.OpenInFrame | lib/src/orfs.rs:94-121 | In the divisible case, no position the ORF reads before its stop is in the stop list of its frame. |
| Orfs.OpenAcrossEnd | lib/src/orfs.rs:147-213 | Across the end, no position read before the stop is in the stop list of the frame it lies in. |
| Orfs.OpenShifting | lib/src/orfs.rs:124-213 | In the non-divisible case, no position read before the stop is in the stop list of the frame it lies in. |
| Orfs.ScannedStops | lib/src/orfs.rs:32-82 | The scanned stop lists ascend, lie in their frame, and hold exactly the stop codons of their frame. |
| Orfs.OrfShape | lib/src/orfs.rs:430-445 | The ORF for a start codon starts there and has a length divisible by three, at least one codon. Its stop is a stop codon other than the start, where its last codon begins. Without a stop it covers the circle once, or three times with three frame shifts. |
| Orfs.OrfOpen | lib/src/orfs.rs:87-214 | No codon an ORF reads before its stop codon is a stop codon. Without a stop, no codon it reads is one. |
| Orfs.Repeat | lib/src/orfs.rs:18-28 | The sequence repeated `k` times has `k` times its length. |
| Orfs.RepeatAt | lib/src/orfs.rs:18-28 | Position `j` of the repetition is base `j mod n`. |
| Orfs.OrfSeq | lib/src/orfs.rs:18-28 | `Orf::seq` has the ORF's length, and base `i` is base `(start + i) mod n` of the sequence. |
| Orfs.OrfSeqHead | lib/src/orfs.rs:18-28 | The bases of an ORF begin with the codon at its start. |
| Orfs.OrfSeqTail | lib/src/orfs.rs:18-28 | The bases of an ORF end with the codon where its last three bases begin, read across the end. |
| Orfs.OrfSeqCodons | lib/src/orfs.rs:18-28 | The bases of an emitted ORF begin with `ATG` and, when it has a stop, end with a stop codon. |
| Orfs.Stops | lib/src/orfs.rs:224-231 | The set of stops holds exactly the stops of the list's ORFs. |
| Orfs.KeepFirstPerStop | lib/src/orfs.rs:224-231 | The loop keeps ORFs from the input, at most as many, with pairwise different stops. |
| Orfs.KeptStops | lib/src/orfs.rs:446-454 | Every stop of the input keeps an ORF. |
| Orfs.KeptIsLongest | lib/src/orfs.rs:219-233 | On a list sorted longest first, the ORF kept for a stop is a longest one with that stop. |
| Orfs.Inserted | lib/src/orfs.rs:222 | Once nothing longer precedes the inserted ORF, the prefix is sorted. |
| Orfs.InsertStep | lib/src/orfs.rs:222 | Swapping the inserted ORF with a longer neighbour keeps the insertion invariant. |
| Orfs.SwapAdjacent | lib/src/orfs.rs:222 | Exchanges two neighbours and keeps the same ORFs. |
| Orfs.InsertByLength | lib/src/orfs.rs:222 | Extends the sorted prefix by one. It leaves the rest alone and keeps the same ORFs. |
| Orfs.SortByLength | lib/src/orfs.rs:222 | `sort_by_key` leaves the ORFs sorted by length and a permutation of the input. |
| Orfs.Reverse | lib/src/orfs.rs:223 | `reverse` puts ORF `n - 1 - k` at `k` and keeps the same ORFs. |
| Orfs.KeepLongest | lib/src/orfs.rs:224-231 | The loop with its set of seen stops computes `KeepFirstPerStop`. |
| Orfs.LongestOrfs | lib/src/orfs.rs:219-233 | The input array becomes a permutation sorted longest first. The result keeps the first ORF per stop of that order. |
| Orfs.OrfsFromAt | lib/src/orfs.rs:87-215 | ORF `i` is the one for start position `i`, one per start. |
| Orfs.OrfsOnePerStart | lib/src/orfs.rs:87-215 | `find_orfs` emits one ORF per start codon, in the order of the start lists, and every start codon has its ORF. |
| Orfs.StopsAtgAtgTag | lib/src/orfs.rs:345-362 | In "ATGATGTAG" the stop codons are at 6 (frame 0) and 1 (frame 1). |
| Orfs.StartsAtgAtgTag | lib/src/orfs.rs:345-362 | In "ATGATGTAG" the start codons are at 0 and 3. |
| Orfs.OrfsAtgAtgTag | lib/src/orfs.rs:345-362 | "ATGATGTAG" has two ORFs ending at 6, of lengths 9 and 6. |
| Orfs.LongestOrfSmall | lib/src/orfs.rs:345-362 | Of those two, `longest_orfs` keeps only the longer one. |
| Orfs.StopsMod0Once | lib/src/orfs.rs:239-254 | In "GCATAAGCAATG" the only stop codon is at 3. |
| Orfs.StartsMod0Once | lib/src/orfs.rs:239-254 | In "GCATAAGCAATG" the only start codon is at 9. |
| Orfs.OrfsMod0Once | lib/src/orfs.rs:239-254 | Its one ORF runs from 9 across the end to the stop at 3, with 9 bases and no frame shift. |
| Orfs.StopsMod1Once | lib/src/orfs.rs:256-271 | In "GCATAAGATG" the only stop codon is at 3. |
| Orfs.StartsMod1Once | lib/src/orfs.rs:256-271 | Its only start codon is at 7. |
| Orfs.OrfsMod1Once | lib/src/orfs.rs:256-271 | Its one ORF runs from 7 to the stop at 3 after one frame shift, with 9 bases. |
| Orfs.StopsMod1Twice | lib/src/orfs.rs:290-307 | In "ATGAAAAAAAAAA" the only stop codon is at 1, read across the end. |
| Orfs.StartsMod1Twice | lib/src/orfs.rs:290-307 | Its only start codon is at 0. |
| Orfs.OrfsMod1Twice | lib/src/orfs.rs:290-307 | Its one ORF takes two frame shifts to reach the stop at 1, with 30 bases. |

## Left out

- The `AHO_CORASICK` branch of `find_orfs` (`lib/src/orfs.rs:49-65`) is taken only when that environment variable is set. Only the default codon-by-codon scan is modelled; the environment is not.
- Orfs.FindOrfs requires at least two bases. On shorter input the source underflows `seq.len() - 2` and panics.
- Orfs.OrfSeq models the bases only. The UTF-8 conversion and its `unwrap` are not modelled.
- Orfs.LongestOrfs states that the result is sorted and a permutation, not that the sort is stable. An insertion sort stands in for the standard library's `sort_by_key`. Which of two equally long ORFs with the same stop is kept is therefore not stated.
- The `wrap_around_once_mod_2`, `wrap_around_twice_mod_2` and `wrap_around_three_times` tests (`lib/src/orfs.rs:273-288`, `309-326`, `328-343`) are not written as fixtures. They are covered only by the general lemmas.
- The property tests that compare with rust-bio's ORF `Finder` (`lib/src/orfs.rs:364-428`) are left out. That finder is not part of this model.
- rust-bio's `ShiftAnd` is modelled by the offsets its `find_all` yields, not by its bit-parallel automaton. Its panic on patterns longer than 64 bytes is a precondition (`Searchable`). The builders refuse such seeds, but a `Monomerizer` built directly from its public fields could carry one.
- rust-bio's `revcomp` is modelled as the complement of `A`, `C`, `G`, `T` in both cases, leaving other bytes unchanged. Its IUPAC and `U` entries are not modelled. So the `auu` test (`lib/src/canonicalize.rs:105-108`) is left out.
- The SIMD `hamming` of rust-bio is modelled as a plain count of differing positions.
- Monomerize.Identity: `overlap_min_identity` is an `f64` in the source. Here it is an exact fraction restricted to `[0, 1]`, and floating-point rounding is not modelled. The builder does not check the range, and identities outside it are not modelled. An identity above 1 makes the `u64` subtraction at lib/src/monomerize.rs:71-73 and lib/src/monomerize2.rs:80-82 underflow. A negative or NaN identity saturates the `as u64` cast to 0, so the allowance becomes the whole overlap and every window passes.
- Monomerize.BuildError: the builder's error strings are modelled as the three error cases they report, not as text. `derive_builder`'s generated code is not part of this model.
- The `u64` and `usize` widths are unbounded integers. For an identity in `[0, 1]` and reads that fit in memory, no arithmetic in the modelled code overflows; the identity line above names the underflow outside that range.
- Orfs.FindOrfs: `find_orfs` takes a `&str` and slices it at byte offsets (lib/src/orfs.rs:42, 69, 77), which panics on non-ASCII input when an offset falls inside a multi-byte character. The model treats every character as one byte, so it covers ASCII input only.
- The `warn!` and `debug!` logging is left out.
- The rstest case "repeat at beginning" (seed 10) and the tests with mismatches, big inputs and the ambivirus genome (`lib/src/monomerize.rs:200-300`, `330-389`, `421-444`) are not written as fixtures. The same holds for the `monomerize2.rs` tests other than `no_overlap_at_all`, `identical_repeat`, `multimer_with_seed_repeated` and the validation tests. The property tests (`lib/src/monomerize.rs:504-535`) are left out.
- Monomerize.MonomerizeIdenticalTrimer proves the `complete_identical_multimer` case for seed length 5 only, with any distance limit. The other seed lengths of that test (4 and 6 to 10) are not proved.

## Findings

| source | as written | input that shows it | evidently intended | confidence | as-written member | corrected member |
|---|---|---|---|---|---|---|
| lib/src/canonicalize.rs:4-25 | `lmsr_index` restarts the comparison at the new candidate and skips ahead by `j - k`. It can stop at a rotation that is not the smallest. | "BAABA": `lmsr_index` returns 4 ("ABAAB"), while rotation 1 ("AABAB") is smaller. | The index of the lexicographically minimal rotation, as its doc comment says, so that every rotation of a circular sequence gets the same canonical form. | not executed | Canonicalize.LmsrIndexNotMinimal | MinimalRotation.CanonicalFormMinimal |
