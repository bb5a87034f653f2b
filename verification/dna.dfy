/**
 * The reverse complement of rust-bio's `alphabets::dna::revcomp`: the text is
 * read backwards and every base is replaced by its Watson-Crick partner.
 */
module Dna {
  import opened Bytes

  /** Base pairing A-T and C-G, in both cases; every other byte is left as it is. */
  function Complement(c: Byte): (r: Byte)
  {
    match c
    case 'A' => 'T'
    case 'T' => 'A'
    case 'C' => 'G'
    case 'G' => 'C'
    case 'a' => 't'
    case 't' => 'a'
    case 'c' => 'g'
    case 'g' => 'c'
    case _ => c
  }

  lemma ComplementInvolution(c: Byte)
    ensures Complement(Complement(c)) == c
  {
  }

  function RevComp(s: seq<Byte>): (r: seq<Byte>)
    ensures |r| == |s|
  {
    if |s| == 0 then [] else [Complement(s[|s| - 1])] + RevComp(s[..|s| - 1])
  }

  /** Byte `i` of the reverse complement is the complement of byte `|s| - 1 - i` of `s`. */
  lemma {:induction false} RevCompAt(s: seq<Byte>, i: nat)
    requires i < |s|
    ensures RevComp(s)[i] == Complement(s[|s| - 1 - i])
  {
    if i > 0 {
      RevCompAt(s[..|s| - 1], i - 1);
    }
  }

  lemma RevCompInvolution(s: seq<Byte>)
    ensures RevComp(RevComp(s)) == s
  {
    var r := RevComp(s);
    forall i | 0 <= i < |s|
      ensures RevComp(r)[i] == s[i]
    {
      RevCompAt(r, i);
      RevCompAt(s, |s| - 1 - i);
      ComplementInvolution(s[i]);
    }
  }
}
