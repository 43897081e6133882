/** scripts/SixFrame_translation.py: the six reading frames built by
    concatenating three-character chunks, and a translation that emits stop
    codons as '.' and fails on a codon missing from the table. */
module SixFrameChunks {
  import opened Wrappers
  import opened Text
  import opened Dna

  /** The length of frame '+1' of a read of length n: chunks are taken at
      0, 3, 6, ... for as long as the chunk start plus 3 is below n. */
  function PlusOneLength(n: nat): (r: nat)
    ensures r <= n
  {
    if n <= 3 then 0 else 3 + PlusOneLength(n - 3)
  }

  /** Frame '+1' is the longest prefix made of whole chunks that is strictly
      shorter than the read (or empty, for an empty read). */
  lemma {:induction false} PlusOneLongest(n: nat)
    ensures PlusOneLength(n) % 3 == 0
    ensures PlusOneLength(n) < n || n == 0
    ensures n <= PlusOneLength(n) + 3
  {
    if n > 3 {
      PlusOneLongest(n - 3);
    }
  }

  /** The loops for frames '+2' and '+3': chunks from `start`, clamped at the
      end of the read, for as long as the chunk starts inside the read. */
  method ChunksFrom(dna: string, start: nat) returns (frame: string)
    ensures frame == Drop(dna, start)
  {
    frame := [];
    var loc := start;
    while loc < |dna|
      invariant start <= loc
      invariant frame == Slice(dna, start, loc)
      decreases |dna| - loc
    {
      var hi := if loc + 3 <= |dna| then loc + 3 else |dna|;
      assert Slice(dna, loc, loc + 3) == dna[loc..hi];
      assert dna[start..loc] + dna[loc..hi] == dna[start..hi];
      frame := frame + Slice(dna, loc, loc + 3);
      loc := loc + 3;
    }
  }

  /** `six_frames(dna)`: frame '+1' by whole chunks, '+2' and '+3' from offsets
      1 and 2 to the end, and '-1', '-2', '-3' the reverse complements of
      '+1', '+2', '+3'. */
  method SixFrames(dna: string) returns (frame: map<string, string>)
    ensures frame.Keys == {"+1", "+2", "+3", "-1", "-2", "-3"}
    ensures frame["+1"] == dna[..PlusOneLength(|dna|)]
    ensures frame["+2"] == Drop(dna, 1) && frame["+3"] == Drop(dna, 2)
    ensures frame["-1"] == RevComp(frame["+1"])
    ensures frame["-2"] == RevComp(frame["+2"])
    ensures frame["-3"] == RevComp(frame["+3"])
  {
    var frame1: string := [];
    var loc: nat := 0;
    PlusOneLongest(|dna|);
    while loc + 3 < |dna|
      invariant loc <= |dna| && frame1 == dna[..loc]
      invariant loc + PlusOneLength(|dna| - loc) == PlusOneLength(|dna|)
      decreases |dna| - loc
    {
      assert dna[..loc] + dna[loc..loc + 3] == dna[..loc + 3];
      frame1 := frame1 + dna[loc..loc + 3];
      loc := loc + 3;
    }
    var frame2 := ChunksFrom(dna, 1);
    var frame3 := ChunksFrom(dna, 2);
    var frame4 := ReverseComplement(frame1);
    var frame5 := ReverseComplement(frame2);
    var frame6 := ReverseComplement(frame3);
    frame := map["+1" := frame1, "+2" := frame2, "+3" := frame3,
                 "-1" := frame4, "-2" := frame5, "-3" := frame6];
  }

  /** What `translation` raises. */
  datatype TranslationError = KeyError(codon: string)

  /** The protein `translation` returns when reading starts at `loc`: codons
      are read while the codon start plus 3 is below the length. */
  function Translated(rna: string, loc: nat): (r: Result<string, TranslationError>)
    decreases |rna| - loc
  {
    if |rna| <= loc + 3 then Success([])
    else match AminoAcid(rna[loc..loc + 3])
      case None => Failure(KeyError(rna[loc..loc + 3]))
      case Some(a) => Prepend([a], Translated(rna, loc + 3))
  }

  /** `translation(rna)`: the while loop over codons at 0, 3, 6, ... */
  method Translation(rna: string) returns (r: Result<string, TranslationError>)
    ensures r == Translated(rna, 0)
  {
    var protein: string := [];
    var loc: nat := 0;
    if Translated(rna, 0).Success? {
      assert [] + Translated(rna, 0).value == Translated(rna, 0).value;
    }
    while loc + 3 < |rna|
      invariant Translated(rna, 0) == Prepend(protein, Translated(rna, loc))
      decreases |rna| - loc
    {
      var codon := rna[loc..loc + 3];
      var amino := AminoAcid(codon);
      if amino.None? {
        return Failure(KeyError(codon));
      }
      var rest := Translated(rna, loc + 3);
      if rest.Success? {
        assert protein + [amino.value] + rest.value == protein + ([amino.value] + rest.value);
      }
      protein := protein + [amino.value];
      loc := loc + 3;
    }
    assert protein + [] == protein;
    r := Success(protein);
  }

  /** A translation from `loc` holds the table value of each codon it reads,
      stop codons included, and reads every codon that starts before the last
      three characters and no other. */
  lemma {:induction false} TranslatedSound(rna: string, loc: nat)
    requires Translated(rna, loc).Success?
    ensures var p := Translated(rna, loc).value;
      && (p != [] ==> loc + 3 * |p| < |rna|)
      && |rna| <= loc + 3 * |p| + 3
      && (forall t :: 0 <= t < |p| ==> AminoAcid(rna[loc + 3 * t..loc + 3 * t + 3]) == Some(p[t]))
    decreases |rna| - loc
  {
    if loc + 3 < |rna| {
      var a := AminoAcid(rna[loc..loc + 3]).value;
      TranslatedSound(rna, loc + 3);
      var q := Translated(rna, loc + 3).value;
      var p := Translated(rna, loc).value;
      assert p == [a] + q;
      forall t | 1 <= t < |p|
        ensures p[t] == q[t - 1] && loc + 3 * t == (loc + 3) + 3 * (t - 1)
      {
      }
    }
  }

  /** An RNA string over A/C/G/U never raises KeyError. */
  lemma {:induction false} TranslatedTotal(rna: string, loc: nat)
    requires forall k :: loc <= k < |rna| ==> IsRnaBase(rna[k])
    ensures Translated(rna, loc).Success?
    decreases |rna| - loc
  {
    if loc + 3 < |rna| {
      var codon := rna[loc..loc + 3];
      assert IsRnaBase(codon[0]) && IsRnaBase(codon[1]) && IsRnaBase(codon[2]);
      AminoAcidKeys(codon);
      TranslatedTotal(rna, loc + 3);
    }
  }

  /** KeyError names a codon of the input that is missing from the table. */
  lemma {:induction false} TranslatedRaises(rna: string, loc: nat) returns (at: nat)
    requires Translated(rna, loc).Failure?
    ensures loc <= at && at + 3 < |rna| && (at - loc) % 3 == 0
    ensures Translated(rna, loc).error == KeyError(rna[at..at + 3])
    ensures AminoAcid(rna[at..at + 3]).None?
    decreases |rna| - loc
  {
    if AminoAcid(rna[loc..loc + 3]).None? {
      at := loc;
    } else {
      at := TranslatedRaises(rna, loc + 3);
    }
  }

  // ---------------------------------------------------------------- whole codons

  /** The length of the longest prefix of whole codons of a string of length n. */
  function WholeCodonLength(n: nat): nat
  {
    if n < 3 then 0 else 3 + WholeCodonLength(n - 3)
  }

  /** The prefix of whole codons leaves fewer than three characters over. */
  lemma {:induction false} WholeCodonLongest(n: nat)
    ensures WholeCodonLength(n) % 3 == 0
    ensures WholeCodonLength(n) <= n < WholeCodonLength(n) + 3
  {
    if n >= 3 {
      WholeCodonLongest(n - 3);
    }
  }

  /** A read made of whole codons loses its last codon in frame '+1', which
      a frame of whole codons keeps. */
  lemma PlusOneDropsLastCodon(dna: string, n: nat)
    requires |dna| == 3 * n && n >= 1
    ensures PlusOneLength(|dna|) == |dna| - 3
    ensures WholeCodonLength(|dna|) == |dna|
  {
    PlusOneLongest(|dna|);
    WholeCodonLongest(|dna|);
  }

  /** Translation that reads every whole codon, while the codon start plus 3
      is at most the length. */
  function WholeTranslated(rna: string, loc: nat): (r: Result<string, TranslationError>)
    decreases |rna| - loc
  {
    if |rna| < loc + 3 then Success([])
    else match AminoAcid(rna[loc..loc + 3])
      case None => Failure(KeyError(rna[loc..loc + 3]))
      case Some(a) => Prepend([a], WholeTranslated(rna, loc + 3))
  }

  /** Reading every whole codon gives one residue per codon, each the table
      value of its codon, and leaves fewer than three characters unread. */
  lemma {:induction false} WholeTranslatedSound(rna: string, loc: nat)
    requires loc <= |rna| && WholeTranslated(rna, loc).Success?
    ensures var p := WholeTranslated(rna, loc).value;
      && loc + 3 * |p| <= |rna| < loc + 3 * |p| + 3
      && (forall t :: 0 <= t < |p| ==> AminoAcid(rna[loc + 3 * t..loc + 3 * t + 3]) == Some(p[t]))
    decreases |rna| - loc
  {
    if loc + 3 <= |rna| {
      WholeTranslatedSound(rna, loc + 3);
      var q := WholeTranslated(rna, loc + 3).value;
      forall u | 0 <= u < |q|
        ensures loc + 3 * (u + 1) == (loc + 3) + 3 * u
      {
      }
    }
  }

  /** On an RNA string of n whole codons, `translation` returns n - 1 residues
      where reading every whole codon returns n. */
  lemma TranslationDropsLastCodon(rna: string, n: nat)
    requires |rna| == 3 * n && n >= 1
    requires forall k :: 0 <= k < |rna| ==> IsRnaBase(rna[k])
    ensures Translated(rna, 0).Success? && |Translated(rna, 0).value| == n - 1
    ensures WholeTranslated(rna, 0).Success? && |WholeTranslated(rna, 0).value| == n
  {
    TranslatedTotal(rna, 0);
    TranslatedSound(rna, 0);
    WholeTranslatedTotal(rna, 0);
    WholeTranslatedSound(rna, 0);
  }

  /** Reading every whole codon of an RNA string over A/C/G/U never fails. */
  lemma {:induction false} WholeTranslatedTotal(rna: string, loc: nat)
    requires forall k :: loc <= k < |rna| ==> IsRnaBase(rna[k])
    ensures WholeTranslated(rna, loc).Success?
    decreases |rna| - loc
  {
    if loc + 3 <= |rna| {
      var codon := rna[loc..loc + 3];
      assert IsRnaBase(codon[0]) && IsRnaBase(codon[1]) && IsRnaBase(codon[2]);
      AminoAcidKeys(codon);
      WholeTranslatedTotal(rna, loc + 3);
    }
  }
}
