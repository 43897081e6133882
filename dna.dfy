/** The DNA and RNA helpers shared by both six-frame translation scripts
    (scripts/six_frame_translation.py and scripts/SixFrame_translation.py hold
    identical copies): reverse complement, T-to-U transcription and the codon
    table. */
module Dna {
  import opened Text
  import opened Wrappers

  /** The four characters `reverse_complement` keeps. */
  predicate IsBase(c: char)
  {
    c == 'A' || c == 'C' || c == 'G' || c == 'T'
  }

  predicate AllBases(s: string)
  {
    forall k :: 0 <= k < |s| ==> IsBase(s[k])
  }

  /** The `complement` dictionary: A and T swap, C and G swap. */
  function Complement(c: char): (r: char)
    requires IsBase(c)
    ensures IsBase(r) && r != c
  {
    match c
    case 'A' => 'T'
    case 'T' => 'A'
    case 'C' => 'G'
    case 'G' => 'C'
  }

  lemma ComplementComplement(c: char)
    requires IsBase(c)
    ensures Complement(Complement(c)) == c
  {
  }

  /** The list `revComp` once the loop has seen `s`: the complement of every
      base of `s`, in the order of `s`, other characters dropped. */
  function Complemented(s: string): (r: string)
    ensures |r| <= |s| && AllBases(r)
  {
    if s == [] then []
    else Complemented(s[..|s| - 1]) + (if IsBase(s[|s| - 1]) then [Complement(s[|s| - 1])] else [])
  }

  /** `''.join(revComp[::-1])`. */
  function RevComp(s: string): (r: string)
    ensures AllBases(r)
  {
    Reverse(Complemented(s))
  }

  /** `reverse_complement(dna)`: the append loop over `dna`, then the reversal. */
  method ReverseComplement(dna: string) returns (r: string)
    ensures r == RevComp(dna)
  {
    var revComp: string := [];
    for i := 0 to |dna|
      invariant revComp == Complemented(dna[..i])
    {
      assert dna[..i + 1][..i] == dna[..i];
      var base := dna[i];
      if IsBase(base) {
        revComp := revComp + [Complement(base)];
      }
    }
    assert dna[..|dna|] == dna;
    r := Reverse(revComp);
  }

  /** The number of A/C/G/T characters of `s`, counted from the front. */
  function BaseCount(s: string): nat
  {
    if s == [] then 0 else (if IsBase(s[0]) then 1 else 0) + BaseCount(s[1..])
  }

  lemma {:induction false} BaseCountSnoc(s: string, c: char)
    ensures BaseCount(s + [c]) == BaseCount(s) + (if IsBase(c) then 1 else 0)
  {
    if s != [] {
      assert (s + [c])[1..] == s[1..] + [c];
      BaseCountSnoc(s[1..], c);
    }
  }

  /** The reverse complement has one character per base of the input. */
  lemma {:induction false} RevCompLength(s: string)
    ensures |RevComp(s)| == BaseCount(s)
  {
    if s != [] {
      RevCompLength(s[..|s| - 1]);
      assert s == s[..|s| - 1] + [s[|s| - 1]];
      BaseCountSnoc(s[..|s| - 1], s[|s| - 1]);
    }
  }

  /** On a string of bases nothing is dropped: every base is complemented in place. */
  lemma {:induction false} ComplementedBases(s: string)
    requires AllBases(s)
    ensures |Complemented(s)| == |s|
    ensures forall k :: 0 <= k < |s| ==> Complemented(s)[k] == Complement(s[k])
  {
    if s != [] {
      ComplementedBases(s[..|s| - 1]);
    }
  }

  /** The reverse complement of a string of bases is read backwards, complemented. */
  lemma RevCompBases(s: string)
    requires AllBases(s)
    ensures |RevComp(s)| == |s|
    ensures forall k :: 0 <= k < |s| ==> RevComp(s)[k] == Complement(s[|s| - 1 - k])
  {
    ComplementedBases(s);
  }

  /** Taking the reverse complement twice gives back a string of bases. */
  lemma RevCompRevComp(s: string)
    requires AllBases(s)
    ensures RevComp(RevComp(s)) == s
  {
    var r := RevComp(s);
    RevCompBases(s);
    RevCompBases(r);
    forall k | 0 <= k < |s|
      ensures RevComp(r)[k] == s[k]
    {
      ComplementComplement(s[k]);
    }
  }

  /** `dna.replace('T', 'U')`. */
  function Transcribe(dna: string): (r: string)
    ensures |r| == |dna|
    ensures forall k :: 0 <= k < |dna| && dna[k] != 'T' ==> r[k] == dna[k]
    ensures forall k :: 0 <= k < |dna| && dna[k] == 'T' ==> r[k] == 'U'
  {
    Map(dna, c => if c == 'T' then 'U' else c)
  }

  /** No 'T' survives transcription, and transcribing twice is transcribing once. */
  lemma TranscribeNoT(dna: string)
    ensures forall k :: 0 <= k < |dna| ==> Transcribe(dna)[k] != 'T'
    ensures Transcribe(Transcribe(dna)) == Transcribe(dna)
  {
  }

  /** The four RNA bases. */
  predicate IsRnaBase(c: char)
  {
    c == 'A' || c == 'C' || c == 'G' || c == 'U'
  }

  /** Transcribing a string of DNA bases gives a string of RNA bases. */
  lemma TranscribeBases(dna: string)
    requires AllBases(dna)
    ensures forall k :: 0 <= k < |dna| ==> IsRnaBase(Transcribe(dna)[k])
  {
  }

  /** `amino_acid_table[codon]`: the one-letter amino acid of a codon, '.' for a
      stop codon, and `None` for a string that is not a key of the table. */
  function AminoAcid(codon: string): Option<char>
  {
    if |codon| != 3 then None else
    match (codon[0], codon[1], codon[2])
    case ('A', 'U', 'G') => Some('M') case ('U', 'U', 'G') => Some('L')
    case ('G', 'U', 'G') => Some('V') case ('C', 'U', 'G') => Some('L')
    case ('A', 'U', 'A') => Some('I') case ('U', 'U', 'A') => Some('L')
    case ('G', 'U', 'A') => Some('V') case ('C', 'U', 'A') => Some('L')
    case ('A', 'U', 'C') => Some('I') case ('U', 'U', 'C') => Some('F')
    case ('G', 'U', 'C') => Some('V') case ('C', 'U', 'C') => Some('L')
    case ('A', 'U', 'U') => Some('I') case ('U', 'U', 'U') => Some('F')
    case ('G', 'U', 'U') => Some('V') case ('C', 'U', 'U') => Some('L')
    case ('A', 'G', 'G') => Some('R') case ('U', 'G', 'G') => Some('W')
    case ('G', 'G', 'G') => Some('G') case ('C', 'G', 'G') => Some('R')
    case ('A', 'G', 'A') => Some('R') case ('U', 'G', 'A') => Some('.')
    case ('G', 'G', 'A') => Some('G') case ('C', 'G', 'A') => Some('R')
    case ('A', 'G', 'C') => Some('S') case ('U', 'G', 'C') => Some('C')
    case ('G', 'G', 'C') => Some('G') case ('C', 'G', 'C') => Some('R')
    case ('A', 'G', 'U') => Some('S') case ('U', 'G', 'U') => Some('C')
    case ('G', 'G', 'U') => Some('G') case ('C', 'G', 'U') => Some('R')
    case ('A', 'C', 'G') => Some('T') case ('U', 'C', 'G') => Some('S')
    case ('G', 'C', 'G') => Some('A') case ('C', 'C', 'G') => Some('P')
    case ('A', 'C', 'A') => Some('T') case ('U', 'C', 'A') => Some('S')
    case ('G', 'C', 'A') => Some('A') case ('C', 'C', 'A') => Some('P')
    case ('A', 'C', 'C') => Some('T') case ('U', 'C', 'C') => Some('S')
    case ('G', 'C', 'C') => Some('A') case ('C', 'C', 'C') => Some('P')
    case ('A', 'C', 'U') => Some('T') case ('U', 'C', 'U') => Some('S')
    case ('G', 'C', 'U') => Some('A') case ('C', 'C', 'U') => Some('P')
    case ('A', 'A', 'G') => Some('K') case ('U', 'A', 'G') => Some('.')
    case ('G', 'A', 'G') => Some('E') case ('C', 'A', 'G') => Some('Q')
    case ('A', 'A', 'A') => Some('K') case ('U', 'A', 'A') => Some('.')
    case ('G', 'A', 'A') => Some('E') case ('C', 'A', 'A') => Some('Q')
    case ('A', 'A', 'C') => Some('N') case ('U', 'A', 'C') => Some('Y')
    case ('G', 'A', 'C') => Some('D') case ('C', 'A', 'C') => Some('H')
    case ('A', 'A', 'U') => Some('N') case ('U', 'A', 'U') => Some('Y')
    case ('G', 'A', 'U') => Some('D') case ('C', 'A', 'U') => Some('H')
    case _ => None
  }

  /** The protein a translation loop has built so far, followed by whatever
      the rest of the loop yields. */
  function Prepend<E>(protein: string, rest: Result<string, E>): Result<string, E>
  {
    match rest
    case Success(p) => Success(protein + p)
    case Failure(e) => Failure(e)
  }

  /** The table holds exactly the 64 codons over A/C/G/U. */
  lemma AminoAcidKeys(codon: string)
    ensures AminoAcid(codon).Some? <==> |codon| == 3 && IsRnaBase(codon[0]) && IsRnaBase(codon[1]) && IsRnaBase(codon[2])
  {
  }

  /** The three stop codons UAA, UAG and UGA, and only they, map to '.'. */
  lemma StopCodons(codon: string)
    requires AminoAcid(codon).Some?
    ensures AminoAcid(codon).value == '.' <==> codon == "UAA" || codon == "UAG" || codon == "UGA"
  {
  }
}
