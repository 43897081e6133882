/** The seed-and-extend filter of the query: seeds of the query are looked up
    in the k-mer index, and the hits are merged, per reference sequence, into
    the window [start, end) the local alignment is then run on. This is the
    version with a head and a tail seed, which skips seeds missing from the
    index. */
module SeedExtend {
  import opened Wrappers
  import opened Grid
  import opened OrderedMap
  import opened KmerIndex

  // ---------------------------------------------------------------- hamming

  /** The number of positions below n where a and b differ. */
  function Mismatches(a: string, b: string, n: nat): (d: nat)
    requires n <= |a| && n <= |b|
    ensures d <= n
  {
    if n == 0 then 0 else Mismatches(a, b, n - 1) + (if a[n - 1] != b[n - 1] then 1 else 0)
  }

  /** Why `hamming_dist` fails: its `assert` on the lengths. */
  datatype HammingError = LengthsDiffer

  /** `hamming_dist`: strings of different lengths fail the assertion;
      otherwise the positions where they differ are counted. */
  method HammingDist(str1: string, str2: string) returns (r: Result<nat, HammingError>)
    ensures |str1| != |str2| ==> r == Failure(LengthsDiffer)
    ensures |str1| == |str2| ==> r == Success(Mismatches(str1, str2, |str1|))
  {
    if |str1| != |str2| {
      return Failure(LengthsDiffer);
    }
    var dist := 0;
    for i := 0 to |str1|
      invariant dist == Mismatches(str1, str2, i)
    {
      if str1[i] != str2[i] {
        dist := dist + 1;
      }
    }
    return Success(dist);
  }

  /** The distance is 0 exactly on equal strings. */
  lemma {:induction false} MismatchesZero(a: string, b: string, n: nat)
    requires n <= |a| && n <= |b|
    ensures Mismatches(a, b, n) == 0 <==> a[..n] == b[..n]
  {
    if n > 0 {
      MismatchesZero(a, b, n - 1);
      assert a[..n] == a[..n - 1] + [a[n - 1]] && b[..n] == b[..n - 1] + [b[n - 1]];
      if a[..n] == b[..n] {
        assert a[..n - 1] == a[..n][..n - 1] && b[..n - 1] == b[..n][..n - 1];
      }
    }
  }

  lemma HammingZero(a: string, b: string)
    requires |a| == |b|
    ensures Mismatches(a, b, |a|) == 0 <==> a == b
  {
    MismatchesZero(a, b, |a|);
    assert a[..|a|] == a && b[..|b|] == b;
  }

  /** The distance does not depend on the order of the strings. */
  lemma {:induction false} HammingSymmetric(a: string, b: string, n: nat)
    requires n <= |a| && n <= |b|
    ensures Mismatches(a, b, n) == Mismatches(b, a, n)
  {
    if n > 0 {
      HammingSymmetric(a, b, n - 1);
    }
  }

  // ---------------------------------------------------------------- seeds

  /** `seed`: no seed when the query is shorter than k; otherwise its first
      and its last k residues. */
  function Seed(s: string, k: nat): (r: seq<string>)
    ensures |s| < k ==> r == []
    ensures |s| >= k ==> |r| == 2 && |r[0]| == k && |r[1]| == k
    ensures |s| >= k ==> s == r[0] + s[k..] && s == s[..|s| - k] + r[1]
  {
    if |s| < k then [] else [s[..k], s[|s| - k..]]
  }

  // ---------------------------------------------------------------- hits

  /** A hit of a seed: the reference it is in, and the window [start, end)
      the seed covers there. */
  type SeedHit = (string, int, int)

  /** The window a reference is given: [start, end). */
  type Span = (int, int)

  /** The hits of a seed that is in the index, in the order of its list. */
  function SeedHits(seed: string, hits: seq<Hit>): (r: seq<SeedHit>)
    ensures |r| == |hits|
    ensures forall t :: 0 <= t < |hits| ==> r[t] == (hits[t].0, hits[t].1, hits[t].1 + |seed|)
  {
    seq(|hits|, t requires 0 <= t < |hits| => (hits[t].0, hits[t].1 as int, hits[t].1 + |seed|))
  }

  /** The hits of the first n seeds, in the order the loops meet them; seeds
      missing from the index contribute none. */
  function AllHits(seeds: seq<string>, subject: map<string, seq<Hit>>, n: nat): seq<SeedHit>
    requires n <= |seeds|
  {
    if n == 0 then []
    else AllHits(seeds, subject, n - 1) + (if seeds[n - 1] in subject then SeedHits(seeds[n - 1], subject[seeds[n - 1]]) else [])
  }

  /** One step of the inner loop: a new reference gets the hit's window; a
      known one has its start lowered and its end raised to cover the hit. */
  function Widen(targets: ODict<string, Span>, h: SeedHit): (r: ODict<string, Span>)
    requires targets.Valid()
    ensures r.Valid()
  {
    if h.0 !in targets.values then Put(targets, h.0, (h.1, h.2))
    else
      var w := targets.values[h.0];
      Put(targets, h.0, (if w.0 > h.1 then h.1 else w.0, if w.1 < h.2 then h.2 else w.1))
  }

  /** The windows after the hits hs, starting from `targets`. */
  function MergeFrom(targets: ODict<string, Span>, hs: seq<SeedHit>): (r: ODict<string, Span>)
    requires targets.Valid()
    ensures r.Valid()
  {
    if hs == [] then targets else Widen(MergeFrom(targets, hs[..|hs| - 1]), hs[|hs| - 1])
  }

  function Merge(hs: seq<SeedHit>): (r: ODict<string, Span>)
    ensures r.Valid()
  {
    MergeFrom(Empty(), hs)
  }

  lemma MergeSnoc(targets: ODict<string, Span>, hs: seq<SeedHit>, h: SeedHit)
    requires targets.Valid()
    ensures MergeFrom(targets, hs + [h]) == Widen(MergeFrom(targets, hs), h)
  {
    assert (hs + [h])[..|hs|] == hs;
  }

  /** What `extend` returns: `[(rid, tuple(pos)) for rid, pos in
      targets.items()]`. */
  function Extended(seeds: seq<string>, subject: map<string, seq<Hit>>): seq<(string, Span)>
  {
    Items(Merge(AllHits(seeds, subject, |seeds|)))
  }

  /** `extend`: for each seed in the index, widen the window of each of its
      hits' references. */
  method Extend(seeds: seq<string>, subject: map<string, seq<Hit>>) returns (r: seq<(string, Span)>)
    ensures r == Extended(seeds, subject)
  {
    var targets: ODict<string, Span> := Empty();
    for n := 0 to |seeds|
      invariant targets == Merge(AllHits(seeds, subject, n))
    {
      var seed := seeds[n];
      if seed !in subject {
        assert AllHits(seeds, subject, n + 1) == AllHits(seeds, subject, n) + [];
        assert AllHits(seeds, subject, n + 1) == AllHits(seeds, subject, n);
        continue;
      }
      assert AllHits(seeds, subject, n + 1) == AllHits(seeds, subject, n) + SeedHits(seed, subject[seed]);
      targets := ExtendSeed(targets, seed, subject[seed], AllHits(seeds, subject, n));
    }
    r := Items(targets);
  }

  /** The inner loop of `extend`, over the hits of one seed. */
  method ExtendSeed(targets0: ODict<string, Span>, seed: string, hits: seq<Hit>, ghost before: seq<SeedHit>)
    returns (targets: ODict<string, Span>)
    requires targets0 == Merge(before)
    ensures targets == Merge(before + SeedHits(seed, hits))
  {
    targets := targets0;
    ghost var mine := SeedHits(seed, hits);
    assert before + mine[..0] == before;
    for t := 0 to |hits|
      invariant targets == Merge(before + mine[..t])
    {
      MergeNext(before, seed, hits, t);
      targets := WidenHit(targets, hits[t].0, hits[t].1, hits[t].1 + |seed|);
    }
    assert mine[..|hits|] == mine;
  }

  /** The body of the inner loop of `extend`: one hit widens the window of
      its reference. */
  method WidenHit(targets0: ODict<string, Span>, refId: string, start: int, end: int)
    returns (targets: ODict<string, Span>)
    requires targets0.Valid()
    ensures targets == Widen(targets0, (refId, start, end))
  {
    targets := targets0;
    if refId !in targets.values {
      targets := Put(targets, refId, (start, end));
    } else {
      var w := targets.values[refId];
      if w.0 > start {
        w := (start, w.1);
      }
      if w.1 < end {
        w := (w.0, end);
      }
      targets := Put(targets, refId, w);
    }
  }

  /** One more hit of a seed is one more widening step. */
  lemma MergeNext(before: seq<SeedHit>, seed: string, hits: seq<Hit>, t: nat)
    requires t < |hits|
    ensures var mine := SeedHits(seed, hits);
      Merge(before + mine[..t + 1]) == Widen(Merge(before + mine[..t]), (hits[t].0, hits[t].1, hits[t].1 + |seed|))
  {
    var mine := SeedHits(seed, hits);
    assert before + mine[..t + 1] == (before + mine[..t]) + [mine[t]];
    MergeSnoc(Empty(), before + mine[..t], mine[t]);
  }

  /** `naive_seed_and_extend`: extend the head and tail seeds of the query. */
  method NaiveSeedAndExtend(query: string, subject: map<string, seq<Hit>>, k: nat) returns (r: seq<(string, Span)>)
    ensures r == Extended(Seed(query, k), subject)
  {
    var seeds := Seed(query, k);
    r := Extend(seeds, subject);
  }

  // ---------------------------------------------------------------- properties

  /** The references that have a hit in hs, each once, in the order of their
      first hit. */
  function FirstSeen(hs: seq<SeedHit>): seq<string>
  {
    if hs == [] then []
    else
      var rest := FirstSeen(hs[..|hs| - 1]);
      if hs[|hs| - 1].0 in rest then rest else rest + [hs[|hs| - 1].0]
  }

  /** Each reference appears once, in the order of its first hit. */
  lemma {:induction false} MergeOrder(hs: seq<SeedHit>)
    ensures Merge(hs).keys == FirstSeen(hs)
  {
    if hs != [] {
      MergeOrder(hs[..|hs| - 1]);
    }
  }

  /** A reference has a window exactly when it has a hit. */
  lemma {:induction false} MergeHas(hs: seq<SeedHit>, r: string)
    ensures r in Merge(hs).values <==> exists t :: 0 <= t < |hs| && hs[t].0 == r
  {
    if hs != [] {
      var rest := hs[..|hs| - 1];
      MergeHas(rest, r);
      if r in Merge(hs).values && r != hs[|hs| - 1].0 {
        var t :| 0 <= t < |rest| && rest[t].0 == r;
        assert hs[t].0 == r;
      }
      if exists t :: 0 <= t < |hs| && hs[t].0 == r {
        var t :| 0 <= t < |hs| && hs[t].0 == r;
        if t < |rest| {
          assert rest[t].0 == r;
        }
      }
    }
  }

  /** Every hit lies inside the window of its reference. */
  lemma {:induction false} MergeCovers(hs: seq<SeedHit>, t: nat)
    requires t < |hs|
    ensures hs[t].0 in Merge(hs).values
    ensures Merge(hs).values[hs[t].0].0 <= hs[t].1 && hs[t].2 <= Merge(hs).values[hs[t].0].1
  {
    var rest := hs[..|hs| - 1];
    if t < |rest| {
      MergeCovers(rest, t);
      assert rest[t] == hs[t];
    }
  }

  /** The windows are no larger than they need to be: each window's start is
      the start of a hit of its reference, and its end the end of one. */
  lemma {:induction false} MergeTight(hs: seq<SeedHit>, r: string) returns (a: nat, b: nat)
    requires r in Merge(hs).values
    ensures a < |hs| && hs[a].0 == r && hs[a].1 == Merge(hs).values[r].0
    ensures b < |hs| && hs[b].0 == r && hs[b].2 == Merge(hs).values[r].1
  {
    var rest := hs[..|hs| - 1];
    var last := hs[|hs| - 1];
    var w := Merge(hs).values[r];
    if r != last.0 {
      a, b := MergeTight(rest, r);
    } else if r !in Merge(rest).values {
      a, b := |hs| - 1, |hs| - 1;
    } else {
      a, b := MergeTight(rest, r);
      if w.0 == last.1 {
        a := |hs| - 1;
      }
      if w.1 == last.2 {
        b := |hs| - 1;
      }
    }
  }

  /** The hit of a seed in the index is among the hits `extend` merges. */
  lemma {:induction false} AllHitsHas(seeds: seq<string>, subject: map<string, seq<Hit>>, n: nat, i: nat, t: nat) returns (u: nat)
    requires n <= |seeds| && i < n && seeds[i] in subject && t < |subject[seeds[i]]|
    ensures var h := subject[seeds[i]][t];
      u < |AllHits(seeds, subject, n)| && AllHits(seeds, subject, n)[u] == (h.0, h.1, h.1 + |seeds[i]|)
  {
    if i < n - 1 {
      u := AllHitsHas(seeds, subject, n - 1, i, t);
    } else {
      u := |AllHits(seeds, subject, n - 1)| + t;
    }
  }

  /** The hit (r, p) is a span of reference r that reads `kmer`. */
  ghost predicate ReadsAt(seqs: ODict<string, string>, kmer: string, h: Hit)
  {
    h.0 in seqs.values && h.1 + |kmer| <= |seqs.values[h.0]| && seqs.values[h.0][h.1..h.1 + |kmer|] == kmer
  }

  /** Every hit filed under a k-mer reads that k-mer in its reference: what
      the index built by `kmer_table` guarantees. */
  ghost predicate SoundSubject(seqs: ODict<string, string>, subject: map<string, seq<Hit>>)
  {
    forall kmer, t :: kmer in subject && 0 <= t < |subject[kmer]| ==> ReadsAt(seqs, kmer, subject[kmer][t])
  }

  /** The index `kmer_table` builds from the references is sound for them. */
  lemma IndexSoundSubject(seqs: ODict<string, string>, k: nat)
    requires seqs.Valid()
    ensures SoundSubject(seqs, Index(AllWindows(seqs, k)).values)
  {
    var table := Index(AllWindows(seqs, k));
    forall kmer, t | kmer in table.values && 0 <= t < |table.values[kmer]|
      ensures ReadsAt(seqs, kmer, table.values[kmer][t])
    {
      assert table.values[kmer][t] in Lookup(table, kmer);
      KmerTableSound(seqs, k, kmer, table.values[kmer][t]);
    }
  }

  /** With a sound index, each hit of a seed is a span of its reference that
      reads the seed. */
  lemma SeedHitsInReference(seqs: ODict<string, string>, subject: map<string, seq<Hit>>, seed: string, t: nat)
    requires SoundSubject(seqs, subject) && seed in subject && t < |subject[seed]|
    ensures var h := SeedHits(seed, subject[seed])[t];
      && h.0 in seqs.values && 0 <= h.1 <= h.2 <= |seqs.values[h.0]|
      && seqs.values[h.0][h.1..h.2] == seed
  {
  }

  /** Every hit of hs is a span inside its reference. */
  ghost predicate HitsInReference(seqs: ODict<string, string>, hs: seq<SeedHit>)
  {
    forall u :: 0 <= u < |hs| ==> hs[u].0 in seqs.values && 0 <= hs[u].1 <= hs[u].2 <= |seqs.values[hs[u].0]|
  }

  /** With a sound index, every hit `extend` merges lies inside its reference. */
  lemma {:induction false} AllHitsInReference(seqs: ODict<string, string>, subject: map<string, seq<Hit>>, seeds: seq<string>, n: nat)
    requires SoundSubject(seqs, subject) && n <= |seeds|
    ensures HitsInReference(seqs, AllHits(seeds, subject, n))
  {
    if n > 0 {
      AllHitsInReference(seqs, subject, seeds, n - 1);
      var before := AllHits(seeds, subject, n - 1);
      forall u | |before| <= u < |AllHits(seeds, subject, n)|
        ensures var h := AllHits(seeds, subject, n)[u];
          h.0 in seqs.values && 0 <= h.1 <= h.2 <= |seqs.values[h.0]|
      {
        SeedHitsInReference(seqs, subject, seeds[n - 1], u - |before|);
      }
    }
  }

  /** With a sound index, every window `extend` returns lies inside its
      reference: (r, (start, end)) has 0 <= start <= end <= len(r). With the
      index `kmer_table` builds, this holds for every query. */
  lemma ExtendInReference(seqs: ODict<string, string>, subject: map<string, seq<Hit>>, seeds: seq<string>, r: string)
    requires SoundSubject(seqs, subject)
    requires r in Merge(AllHits(seeds, subject, |seeds|)).values
    ensures var w := Merge(AllHits(seeds, subject, |seeds|)).values[r];
      r in seqs.values && 0 <= w.0 <= w.1 <= |seqs.values[r]|
  {
    AllHitsInReference(seqs, subject, seeds, |seeds|);
    MergeInReference(seqs, AllHits(seeds, subject, |seeds|), r);
  }

  /** Hits inside their references merge into windows inside them. */
  lemma MergeInReference(seqs: ODict<string, string>, hs: seq<SeedHit>, r: string)
    requires HitsInReference(seqs, hs)
    requires r in Merge(hs).values
    ensures r in seqs.values && 0 <= Merge(hs).values[r].0 <= Merge(hs).values[r].1 <= |seqs.values[r]|
  {
    var a, b := MergeTight(hs, r);
    MergeCovers(hs, b);
  }

  /** A hit (r, p) of seed i gives an item of `extend`'s output for r whose
      window [start, end) holds [p, p + len(seed)). */
  lemma ExtendFinds(seeds: seq<string>, subject: map<string, seq<Hit>>, i: nat, r: string, loc: nat) returns (u: nat)
    requires i < |seeds| && seeds[i] in subject && (r, loc) in subject[seeds[i]]
    ensures var out := Extended(seeds, subject);
      u < |out| && out[u].0 == r && out[u].1.0 <= loc && loc + |seeds[i]| <= out[u].1.1
  {
    var t :| 0 <= t < |subject[seeds[i]]| && subject[seeds[i]][t] == (r, loc);
    ExtendCovers(seeds, subject, i, t);
    var m := Merge(AllHits(seeds, subject, |seeds|));
    assert r in m.keys;
    u :| 0 <= u < |m.keys| && m.keys[u] == r;
  }

  /** The recall floor of the filter: when the head or the tail seed of the
      query occurs at offset loc of reference r, the output of
      `naive_seed_and_extend` over the index of the references has a window
      for r that holds [loc, loc + k). */
  lemma ExtendRecall(seqs: ODict<string, string>, k: nat, query: string, i: nat, r: string, loc: nat) returns (u: nat)
    requires seqs.Valid() && i < |Seed(query, k)|
    requires r in seqs.values && loc + k <= |seqs.values[r]| && seqs.values[r][loc..loc + k] == Seed(query, k)[i]
    ensures var out := Extended(Seed(query, k), Index(AllWindows(seqs, k)).values);
      u < |out| && out[u].0 == r && out[u].1.0 <= loc && loc + k <= out[u].1.1
  {
    var seeds := Seed(query, k);
    var table := Index(AllWindows(seqs, k));
    KmerTableFinds(seqs, k, r, loc);
    assert (r, loc) in Lookup(table, seeds[i]);
    u := ExtendFinds(seeds, table.values, i, r, loc);
  }

  /** For every seed present in the index and every hit (r, p) of it, the
      output holds r with start <= p and end >= p + len(seed). */
  lemma ExtendCovers(seeds: seq<string>, subject: map<string, seq<Hit>>, i: nat, t: nat)
    requires i < |seeds| && seeds[i] in subject && t < |subject[seeds[i]]|
    ensures var h := subject[seeds[i]][t];
      var m := Merge(AllHits(seeds, subject, |seeds|));
      h.0 in m.values && m.values[h.0].0 <= h.1 && h.1 + |seeds[i]| <= m.values[h.0].1
  {
    var u := AllHitsHas(seeds, subject, |seeds|, i, t);
    MergeCovers(AllHits(seeds, subject, |seeds|), u);
  }
}
