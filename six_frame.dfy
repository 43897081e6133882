/** scripts/six_frame_translation.py: the six reading frames of a DNA read as
    suffixes of the read and of its reverse complement, and translation of an
    RNA string up to its first stop codon. */
module SixFrame {
  import opened Wrappers
  import opened Text
  import opened Dna

  /** `six_frames(dna)`: frames 1, 2, 3 drop 0, 1, 2 characters of the read;
      frames -1, -2, -3 drop 0, 1, 2 characters of its reverse complement. */
  function SixFrames(dna: string): (frame: map<int, string>)
    ensures frame.Keys == {1, 2, 3, -1, -2, -3}
  {
    var rc := RevComp(dna);
    map[1 := Drop(dna, 0), 2 := Drop(dna, 1), 3 := Drop(dna, 2),
        -1 := Drop(rc, 0), -2 := Drop(rc, 1), -3 := Drop(rc, 2)]
  }

  /** Frame f and frame -f, for f in 1..3, as suffixes. */
  lemma SixFramesDrop(dna: string, f: int)
    requires 1 <= f <= 3
    ensures SixFrames(dna)[f] == Drop(dna, f - 1)
    ensures SixFrames(dna)[-f] == Drop(RevComp(dna), f - 1)
  {
  }

  /** What is left once the first n characters are gone. */
  lemma DropSplit(s: string, n: nat)
    ensures n <= |s| ==> s == s[..n] + Drop(s, n)
    ensures |Drop(s, n)| == if n <= |s| then |s| - n else 0
  {
  }

  /** Frame f (f in 1..3) is what is left of the read once its first f-1
      characters are gone, and frame -f the same of the reverse complement,
      which has one character per base of the read. */
  lemma SixFramesSuffixes(dna: string, f: int)
    requires 1 <= f <= 3
    ensures f - 1 <= |dna| ==> dna == dna[..f - 1] + SixFrames(dna)[f]
    ensures f - 1 <= |RevComp(dna)| ==> RevComp(dna) == RevComp(dna)[..f - 1] + SixFrames(dna)[-f]
    ensures |SixFrames(dna)[f]| == if f - 1 <= |dna| then |dna| - (f - 1) else 0
    ensures |SixFrames(dna)[-f]| == if f - 1 <= BaseCount(dna) then BaseCount(dna) - (f - 1) else 0
  {
    SixFramesDrop(dna, f);
    DropSplit(dna, f - 1);
    DropSplit(RevComp(dna), f - 1);
    RevCompLength(dna);
  }

  /** For a read of bases, frame -1 is a strand whose reverse complement is the
      read again, and frame 1 is the read itself. */
  lemma SixFramesStrands(dna: string)
    requires AllBases(dna)
    ensures SixFrames(dna)[1] == dna
    ensures RevComp(SixFrames(dna)[-1]) == dna
  {
    RevCompRevComp(dna);
  }

  /** What makes `translation` stop short of the end of its input. */
  datatype TranslationError =
    /** A codon that is not in the table reaches `continue` without moving
        `loc`, so the loop reads the same codon again forever. */
    Hang

  /** The protein `translation` returns when reading starts at `loc`. */
  function Translated(rna: string, loc: nat): (r: Result<string, TranslationError>)
    decreases |rna| - loc
  {
    if |rna| < loc + 3 then Success([])
    else match AminoAcid(rna[loc..loc + 3])
      case None => Failure(Hang)
      case Some(a) =>
        if a == '.' then Success([])
        else match Translated(rna, loc + 3)
          case Success(p) => Success([a] + p)
          case Failure(e) => Failure(e)
  }

  /** `translation(rna)`: the while loop over codons at 0, 3, 6, ... */
  method Translation(rna: string) returns (r: Result<string, TranslationError>)
    ensures r == Translated(rna, 0)
  {
    var protein: string := [];
    var loc: nat := 0;
    if Translated(rna, 0).Success? {
      assert [] + Translated(rna, 0).value == Translated(rna, 0).value;
    }
    while loc + 3 <= |rna|
      invariant Translated(rna, 0) == Prepend(protein, Translated(rna, loc))
      decreases |rna| - loc
    {
      var codon := rna[loc..loc + 3];
      var amino := AminoAcid(codon);
      if amino.None? {
        return Failure(Hang);
      }
      if amino.value == '.' {
        assert protein + [] == protein;
        return Success(protein);
      }
      var rest := Translated(rna, loc + 3);
      if rest.Success? {
        assert protein + [amino.value] + rest.value == protein + ([amino.value] + rest.value);
      }
      protein := protein + [amino.value];
      loc := loc + 3;
    }
    assert protein + [] == protein;
    r := Success(protein);
  }

  /** A translation read from `loc` holds one table value per codon, none of
      them a stop, and reads no further than the end of the input; when it ends
      before the last whole codon, the codon after it is a stop codon. */
  lemma {:induction false} TranslatedSound(rna: string, loc: nat)
    requires Translated(rna, loc).Success?
    ensures var p := Translated(rna, loc).value;
      && (p == [] || loc + 3 * |p| <= |rna|)
      && (forall t :: 0 <= t < |p| ==> p[t] != '.')
      && (forall t :: 0 <= t < |p| ==> AminoAcid(rna[loc + 3 * t..loc + 3 * t + 3]) == Some(p[t]))
      && (loc + 3 * |p| + 3 <= |rna| ==> AminoAcid(rna[loc + 3 * |p|..loc + 3 * |p| + 3]) == Some('.'))
    decreases |rna| - loc
  {
    if loc + 3 <= |rna| {
      var a := AminoAcid(rna[loc..loc + 3]);
      if a.value != '.' {
        TranslatedSound(rna, loc + 3);
        var q := Translated(rna, loc + 3).value;
        var p := Translated(rna, loc).value;
        assert p == [a.value] + q;
        forall t | 1 <= t < |p|
          ensures p[t] == q[t - 1] && loc + 3 * t == (loc + 3) + 3 * (t - 1)
        {
        }
      }
    }
  }

  /** A translation holds at most one residue per whole codon of the input. */
  lemma TranslationLength(rna: string)
    requires Translated(rna, 0).Success?
    ensures 3 * |Translated(rna, 0).value| <= |rna|
  {
    TranslatedSound(rna, 0);
  }

  /** An RNA string over A/C/G/U never makes `translation` hang. */
  lemma {:induction false} TranslatedTotal(rna: string, loc: nat)
    requires forall k :: loc <= k < |rna| ==> IsRnaBase(rna[k])
    ensures Translated(rna, loc).Success?
    decreases |rna| - loc
  {
    if loc + 3 <= |rna| {
      var codon := rna[loc..loc + 3];
      assert IsRnaBase(codon[0]) && IsRnaBase(codon[1]) && IsRnaBase(codon[2]);
      AminoAcidKeys(codon);
      TranslatedTotal(rna, loc + 3);
    }
  }

  /** When `translation` hangs, it is on a codon missing from the table. */
  lemma {:induction false} TranslatedHangs(rna: string, loc: nat) returns (at: nat)
    requires Translated(rna, loc).Failure?
    ensures loc <= at && at + 3 <= |rna| && (at - loc) % 3 == 0
    ensures AminoAcid(rna[at..at + 3]).None?
    decreases |rna| - loc
  {
    if AminoAcid(rna[loc..loc + 3]).None? {
      at := loc;
    } else {
      at := TranslatedHangs(rna, loc + 3);
    }
  }
}
