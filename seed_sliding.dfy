/** The older seed-and-extend filter: seeds are taken every `sgap` residues
    of each reading frame, a seed missing from the k-mer index is an error,
    and a window is never widened: the first hit of a reference fixes its
    window, and a later hit that falls outside it assigns into a tuple, which
    raises. */
module SlidingSeedExtend {
  import opened Wrappers
  import opened OrderedMap
  import opened KmerIndex
  import opened SeedExtend
  import opened Grid

  /** What stops a search: `range` with a step of 0, a seed missing from the
      index (`KeyError`), or an assignment into a window tuple
      (`TypeError`). */
  datatype SearchError = ZeroGap | MissingSeed(seed: string) | TupleAssignment

  // ---------------------------------------------------------------- seeds

  /** The seeds at offsets i, i + sgap, i + 2 sgap, ... while a whole seed
      fits. */
  function Slide(s: string, slen: nat, sgap: nat, i: nat): (r: seq<string>)
    requires sgap > 0
    ensures forall t :: 0 <= t < |r| ==> |r[t]| == slen
    decreases |s| - i
  {
    if i + slen <= |s| then [s[i..i + slen]] + Slide(s, slen, sgap, i + sgap) else []
  }

  /** `seed`: one seed per step of `range(0, len(seq) - slen + 1, sgap)`. */
  method SeedSliding(s: string, slen: nat, sgap: nat) returns (r: Result<seq<string>, SearchError>)
    ensures sgap == 0 ==> r == Failure(ZeroGap)
    ensures sgap > 0 ==> r == Success(Slide(s, slen, sgap, 0))
  {
    if sgap == 0 {
      return Failure(ZeroGap);
    }
    var seeds: seq<string> := [];
    var i := 0;
    assert seeds + Slide(s, slen, sgap, i) == Slide(s, slen, sgap, 0);
    while i + slen <= |s|
      invariant seeds + Slide(s, slen, sgap, i) == Slide(s, slen, sgap, 0)
      decreases |s| - i
    {
      assert Slide(s, slen, sgap, i) == [s[i..i + slen]] + Slide(s, slen, sgap, i + sgap);
      seeds := seeds + [s[i..i + slen]];
      i := i + sgap;
    }
    assert seeds + Slide(s, slen, sgap, i) == seeds;
    return Success(seeds);
  }

  /** The seed number t starts at offset i + t * sgap, and the seeds stop
      exactly where the next one would not fit: there are c of them, the last
      at i + (c - 1) * sgap fits and one at i + c * sgap would not. */
  lemma {:induction false} SlideAt(s: string, slen: nat, sgap: nat, i: nat)
    requires sgap > 0
    ensures var r := Slide(s, slen, sgap, i);
      && (|r| == 0 <==> |s| < i + slen)
      && (|r| > 0 ==> i + (|r| - 1) * sgap + slen <= |s| < i + |r| * sgap + slen)
      && forall t :: 0 <= t < |r| ==> i + t * sgap + slen <= |s| && r[t] == s[i + t * sgap..i + t * sgap + slen]
    decreases |s| - i
  {
    SlideCount(s, slen, sgap, i);
    forall t | 0 <= t < |Slide(s, slen, sgap, i)|
      ensures i + t * sgap + slen <= |s|
      ensures Slide(s, slen, sgap, i)[t] == s[i + t * sgap..i + t * sgap + slen]
    {
      SlideSeed(s, slen, sgap, i, t);
    }
  }

  /** How many seeds there are: none when the sequence is shorter than a seed
      from i, else as many as start before the last start passes |s| - slen. */
  lemma {:induction false} SlideCount(s: string, slen: nat, sgap: nat, i: nat)
    requires sgap > 0
    ensures var r := Slide(s, slen, sgap, i);
      && (|r| == 0 <==> |s| < i + slen)
      && (|r| > 0 ==> i + (|r| - 1) * sgap + slen <= |s| < i + |r| * sgap + slen)
    decreases |s| - i
  {
    if i + slen <= |s| {
      SlideCount(s, slen, sgap, i + sgap);
      var n := |Slide(s, slen, sgap, i + sgap)|;
      StrideOffset(i, sgap, n + 1);
      if n > 0 {
        StrideOffset(i, sgap, n);
      }
    }
  }

  /** Seed t from offset i is the slice at offset i + t * sgap. */
  lemma {:induction false} SlideSeed(s: string, slen: nat, sgap: nat, i: nat, t: nat)
    requires sgap > 0 && t < |Slide(s, slen, sgap, i)|
    ensures i + t * sgap + slen <= |s|
    ensures Slide(s, slen, sgap, i)[t] == s[i + t * sgap..i + t * sgap + slen]
    decreases t
  {
    if t > 0 {
      SlideSeed(s, slen, sgap, i + sgap, t - 1);
      StrideOffset(i, sgap, t);
      assert Slide(s, slen, sgap, i)[t] == Slide(s, slen, sgap, i + sgap)[t - 1];
    }
  }

  // ---------------------------------------------------------------- extend

  /** One step of the inner loop as written: the first hit of a reference
      stores its window; a later hit inside the window changes nothing; a
      later hit with a smaller start or a larger end assigns into the tuple. */
  function StrictWiden(targets: ODict<string, Span>, h: SeedHit): (r: Result<ODict<string, Span>, SearchError>)
    requires targets.Valid()
    ensures r.Success? ==> r.value.Valid()
  {
    if h.0 !in targets.values then Success(Put(targets, h.0, (h.1, h.2)))
    else if targets.values[h.0].0 > h.1 then Failure(TupleAssignment)
    else if targets.values[h.0].1 < h.2 then Failure(TupleAssignment)
    else Success(targets)
  }

  /** The hits hs, one after the other, from `targets`; the first error
      stops the loop. */
  function StrictFrom(targets: ODict<string, Span>, hs: seq<SeedHit>): (r: Result<ODict<string, Span>, SearchError>)
    requires targets.Valid()
    ensures r.Success? ==> r.value.Valid()
  {
    if hs == [] then Success(targets)
    else
      var prev := StrictFrom(targets, hs[..|hs| - 1]);
      if prev.Failure? then prev else StrictWiden(prev.value, hs[|hs| - 1])
  }

  /** The outer loop over the first n seeds: each is looked up with
      `subject[seed]` before its hits are read. */
  function StrictSeeds(seeds: seq<string>, subject: map<string, seq<Hit>>, n: nat): (r: Result<ODict<string, Span>, SearchError>)
    requires n <= |seeds|
    ensures r.Success? ==> r.value.Valid()
  {
    if n == 0 then Success(Empty())
    else
      var prev := StrictSeeds(seeds, subject, n - 1);
      if prev.Failure? then prev
      else if seeds[n - 1] !in subject then Failure(MissingSeed(seeds[n - 1]))
      else StrictFrom(prev.value, SeedHits(seeds[n - 1], subject[seeds[n - 1]]))
  }

  /** What `extend` returns, or the error it raises. */
  function StrictExtended(seeds: seq<string>, subject: map<string, seq<Hit>>): Result<seq<(string, Span)>, SearchError>
  {
    var r := StrictSeeds(seeds, subject, |seeds|);
    if r.Failure? then Failure(r.error) else Success(Items(r.value))
  }

  /** `extend`, as written. */
  method ExtendStrict(seeds: seq<string>, subject: map<string, seq<Hit>>) returns (r: Result<seq<(string, Span)>, SearchError>)
    ensures r == StrictExtended(seeds, subject)
  {
    var targets: ODict<string, Span> := Empty();
    for n := 0 to |seeds|
      invariant StrictSeeds(seeds, subject, n) == Success(targets)
    {
      var step := LookUpAndExtend(targets, seeds, subject, n);
      if step.Failure? {
        return Failure(step.error);
      }
      targets := step.value;
    }
    return Success(Items(targets));
  }

  /** One pass of the outer loop of `extend`, at seed n: `subject[seed]`,
      which raises on a seed missing from the index and so ends the whole
      loop, then the inner loop over its hits. */
  method LookUpAndExtend(targets: ODict<string, Span>, seeds: seq<string>, subject: map<string, seq<Hit>>, n: nat)
    returns (step: Result<ODict<string, Span>, SearchError>)
    requires n < |seeds| && StrictSeeds(seeds, subject, n) == Success(targets)
    ensures step.Success? ==> StrictSeeds(seeds, subject, n + 1) == step
    ensures step.Failure? ==> StrictExtended(seeds, subject) == Failure(step.error)
  {
    var seed := seeds[n];
    if seed !in subject {
      step := Failure(MissingSeed(seed));
    } else {
      step := ExtendSeedStrict(targets, seed, subject[seed]);
    }
    assert StrictSeeds(seeds, subject, n + 1) == step;
    if step.Failure? {
      StrictFailureStays(seeds, subject, n + 1, |seeds|);
    }
  }

  /** The inner loop of `extend`, over the hits of one seed. */
  method ExtendSeedStrict(targets0: ODict<string, Span>, seed: string, hits: seq<Hit>)
    returns (r: Result<ODict<string, Span>, SearchError>)
    requires targets0.Valid()
    ensures r == StrictFrom(targets0, SeedHits(seed, hits))
  {
    var targets := targets0;
    assert SeedHits(seed, hits)[..0] == [];
    for t := 0 to |hits|
      invariant StrictFrom(targets0, SeedHits(seed, hits)[..t]) == Success(targets)
    {
      var step := StrictHit(targets0, targets, seed, hits, t);
      if step.Failure? {
        return step;
      }
      targets := step.value;
    }
    assert SeedHits(seed, hits)[..|hits|] == SeedHits(seed, hits);
    return Success(targets);
  }

  /** The body of the inner loop of `extend`, at hit t: the first hit of a
      reference stores its window, and a later hit outside the window assigns
      into the tuple, which ends the whole loop. */
  method StrictHit(targets0: ODict<string, Span>, targets: ODict<string, Span>, seed: string, hits: seq<Hit>, t: nat)
    returns (step: Result<ODict<string, Span>, SearchError>)
    requires targets0.Valid() && t < |hits|
    requires StrictFrom(targets0, SeedHits(seed, hits)[..t]) == Success(targets)
    ensures step.Success? ==> StrictFrom(targets0, SeedHits(seed, hits)[..t + 1]) == step
    ensures step.Failure? ==> StrictFrom(targets0, SeedHits(seed, hits)) == step
  {
    var refId, start, end := hits[t].0, hits[t].1, hits[t].1 + |seed|;
    if refId !in targets.values {
      step := Success(Put(targets, refId, (start, end)));
    } else if targets.values[refId].0 > start {
      step := Failure(TupleAssignment);
    } else if targets.values[refId].1 < end {
      step := Failure(TupleAssignment);
    } else {
      step := Success(targets);
    }
    StrictFromNext(targets0, seed, hits, t, step);
  }

  /** One more hit, after hits that went through, is one more step; if that
      step fails, so does the whole inner loop. */
  lemma StrictFromNext(targets: ODict<string, Span>, seed: string, hits: seq<Hit>, t: nat,
                       step: Result<ODict<string, Span>, SearchError>)
    requires targets.Valid() && t < |hits|
    requires StrictFrom(targets, SeedHits(seed, hits)[..t]).Success?
    requires step == StrictWiden(StrictFrom(targets, SeedHits(seed, hits)[..t]).value, (hits[t].0, hits[t].1, hits[t].1 + |seed|))
    ensures step.Success? ==> StrictFrom(targets, SeedHits(seed, hits)[..t + 1]) == step
    ensures step.Failure? ==> StrictFrom(targets, SeedHits(seed, hits)) == step
  {
    var hs := SeedHits(seed, hits);
    assert hs[..t + 1][..t] == hs[..t];
    if step.Failure? {
      StrictFromFailureStays(targets, hs, t + 1);
    }
  }

  /** A failure at some hit is the result of the whole inner loop. */
  lemma {:induction false} StrictFromFailureStays(targets: ODict<string, Span>, hs: seq<SeedHit>, n: nat)
    requires targets.Valid() && n <= |hs| && StrictFrom(targets, hs[..n]).Failure?
    ensures StrictFrom(targets, hs) == StrictFrom(targets, hs[..n])
    decreases |hs| - n
  {
    if n < |hs| {
      assert hs[..n + 1][..n] == hs[..n];
      StrictFromFailureStays(targets, hs, n + 1);
    } else {
      assert hs[..n] == hs;
    }
  }

  /** A failure at some seed is the result of the whole outer loop. */
  lemma {:induction false} StrictFailureStays(seeds: seq<string>, subject: map<string, seq<Hit>>, n: nat, m: nat)
    requires n <= m <= |seeds| && StrictSeeds(seeds, subject, n).Failure?
    ensures StrictSeeds(seeds, subject, m) == StrictSeeds(seeds, subject, n)
    decreases m - n
  {
    if n < m {
      StrictFailureStays(seeds, subject, n, m - 1);
    }
  }

  // ---------------------------------------------------------------- properties

  /** The hit h falls inside the window m gives its reference, if any. */
  ghost predicate Fits(m: ODict<string, Span>, h: SeedHit)
  {
    h.0 in m.values ==> m.values[h.0].0 <= h.1 && h.2 <= m.values[h.0].1
  }

  /** No hit falls outside the window the hits before it have given its
      reference. */
  ghost predicate Contained(hs: seq<SeedHit>)
  {
    hs == [] || (Contained(hs[..|hs| - 1]) && Fits(Merge(hs[..|hs| - 1]), hs[|hs| - 1]))
  }

  /** One step as written either fails or does what the widening step does,
      which leaves a fitting hit's window alone. */
  lemma StrictWidenAgrees(m: ODict<string, Span>, h: SeedHit)
    requires m.Valid()
    ensures StrictWiden(m, h) == if Fits(m, h) then Success(Widen(m, h)) else Failure(TupleAssignment)
  {
    if Fits(m, h) && h.0 in m.values {
      PutSame(m, h.0);
    }
  }

  /** Folding the hits as written succeeds, with the windows the other
      version computes, exactly when no hit would widen a window; otherwise it
      raises on the tuple. */
  lemma {:induction false} StrictAgrees(hs: seq<SeedHit>)
    ensures StrictFrom(Empty(), hs) == if Contained(hs) then Success(Merge(hs)) else Failure(TupleAssignment)
  {
    if hs != [] {
      var rest := hs[..|hs| - 1];
      StrictAgrees(rest);
      StrictWidenAgrees(Merge(rest), hs[|hs| - 1]);
    }
  }

  lemma {:induction false} StrictFromAppend(targets: ODict<string, Span>, a: seq<SeedHit>, b: seq<SeedHit>)
    requires targets.Valid()
    ensures StrictFrom(targets, a + b) ==
      if StrictFrom(targets, a).Failure? then StrictFrom(targets, a) else StrictFrom(StrictFrom(targets, a).value, b)
    decreases |b|
  {
    if b == [] {
      assert a + b == a;
    } else {
      assert (a + b)[..|a + b| - 1] == a + b[..|b| - 1];
      StrictFromAppend(targets, a, b[..|b| - 1]);
    }
  }

  /** With every seed in the index, the outer loop is the inner loop run over
      all hits in order. */
  lemma {:induction false} StrictSeedsAllPresent(seeds: seq<string>, subject: map<string, seq<Hit>>, n: nat)
    requires n <= |seeds| && forall i :: 0 <= i < n ==> seeds[i] in subject
    ensures StrictSeeds(seeds, subject, n) == StrictFrom(Empty(), AllHits(seeds, subject, n))
  {
    if n > 0 {
      var m := n - 1;
      StrictSeedsAllPresent(seeds, subject, m);
      StrictSeedsOneMore(seeds, subject, m);
    }
  }

  /** A seed in the index adds its hits, in order, to the inner loop. */
  lemma StrictSeedsOneMore(seeds: seq<string>, subject: map<string, seq<Hit>>, n: nat)
    requires n < |seeds| && seeds[n] in subject
    requires StrictSeeds(seeds, subject, n) == StrictFrom(Empty(), AllHits(seeds, subject, n))
    ensures StrictSeeds(seeds, subject, n + 1) == StrictFrom(Empty(), AllHits(seeds, subject, n + 1))
  {
    var seed := seeds[n];
    StrictFromAppend(Empty(), AllHits(seeds, subject, n), SeedHits(seed, subject[seed]));
  }

  /** A seed missing from the index makes `extend` raise. */
  lemma {:induction false} StrictMissingFails(seeds: seq<string>, subject: map<string, seq<Hit>>, n: nat, i: nat)
    requires i < n <= |seeds| && seeds[i] !in subject
    ensures StrictSeeds(seeds, subject, n).Failure?
  {
    var m := n - 1;
    if i < m {
      StrictMissingFails(seeds, subject, m, i);
    }
  }

  /** The two versions of `extend` agree: with every seed in the index, this
      one returns what the head-and-tail version returns when no hit widens a
      window, and raises on the tuple when one does. */
  lemma ExtendVersionsAgree(seeds: seq<string>, subject: map<string, seq<Hit>>)
    requires forall i :: 0 <= i < |seeds| ==> seeds[i] in subject
    ensures var hs := AllHits(seeds, subject, |seeds|);
      StrictExtended(seeds, subject) == if Contained(hs) then Success(Extended(seeds, subject)) else Failure(TupleAssignment)
  {
    StrictSeedsAllPresent(seeds, subject, |seeds|);
    StrictAgrees(AllHits(seeds, subject, |seeds|));
  }

  /** A hit that fits leaves every window as it was. */
  lemma WidenKeeps(m: ODict<string, Span>, h: SeedHit, key: string)
    requires m.Valid() && key in m.values && Fits(m, h)
    ensures key in Widen(m, h).values && Widen(m, h).values[key] == m.values[key]
  {
  }

  /** When no hit widens a window, the window of a reference is the window of
      its first hit. */
  lemma {:induction false} ContainedKeepsFirst(hs: seq<SeedHit>, a: nat)
    requires a < |hs| && Contained(hs) && hs[a].0 !in Merge(hs[..a]).values
    ensures hs[a].0 in Merge(hs).values && Merge(hs).values[hs[a].0] == (hs[a].1, hs[a].2)
  {
    var rest := hs[..|hs| - 1];
    var h := hs[|hs| - 1];
    var m := Merge(rest);
    assert hs == rest + [h];
    MergeSnoc(Empty(), rest, h);
    assert Merge(hs) == Widen(m, h);
    if a < |rest| {
      assert rest[..a] == hs[..a] && rest[a] == hs[a];
      assert Contained(rest) && Fits(m, h);
      ContainedKeepsFirst(rest, a);
      WidenKeeps(m, h, hs[a].0);
    } else {
      assert hs[..a] == rest;
    }
  }

  // ---------------------------------------------------------------- frames

  /** One frame of the search: seed it, then extend the seeds. */
  function SearchFrame(s: string, subject: map<string, seq<Hit>>, slen: nat, sgap: nat): Result<seq<(string, Span)>, SearchError>
  {
    if sgap == 0 then Failure(ZeroGap) else StrictExtended(Slide(s, slen, sgap, 0), subject)
  }

  /** The results of the first n frames, or the first error. */
  function SearchFrames<F>(query: seq<(F, string)>, subject: map<string, seq<Hit>>, slen: nat, sgap: nat, n: nat)
    : (r: Result<seq<(F, seq<(string, Span)>)>, SearchError>)
    requires n <= |query|
    ensures r.Success? ==> |r.value| == n && forall t :: 0 <= t < n ==> r.value[t].0 == query[t].0
  {
    if n == 0 then Success([])
    else
      var prev := SearchFrames(query, subject, slen, sgap, n - 1);
      if prev.Failure? then prev
      else
        var one := SearchFrame(query[n - 1].1, subject, slen, sgap);
        if one.Failure? then Failure(one.error) else Success(prev.value + [(query[n - 1].0, one.value)])
  }

  /** `naive_seed_and_extend`: one (frame, regions) pair per frame of the
      query, in order. */
  method NaiveSeedAndExtend<F>(query: seq<(F, string)>, subject: map<string, seq<Hit>>, seedLen: nat, seedGap: nat)
    returns (r: Result<seq<(F, seq<(string, Span)>)>, SearchError>)
    ensures r == SearchFrames(query, subject, seedLen, seedGap, |query|)
  {
    var results: seq<(F, seq<(string, Span)>)> := [];
    for n := 0 to |query|
      invariant SearchFrames(query, subject, seedLen, seedGap, n) == Success(results)
    {
      var step := SeedAndExtendFrame(query, subject, seedLen, seedGap, n, results);
      if step.Failure? {
        return step;
      }
      results := step.value;
    }
    return Success(results);
  }

  /** The body of the loop over frames: seed frame n's sequence, extend the
      seeds and append the pair; an error ends the whole search. */
  method SeedAndExtendFrame<F>(query: seq<(F, string)>, subject: map<string, seq<Hit>>, seedLen: nat, seedGap: nat,
                               n: nat, results: seq<(F, seq<(string, Span)>)>)
    returns (step: Result<seq<(F, seq<(string, Span)>)>, SearchError>)
    requires n < |query| && SearchFrames(query, subject, seedLen, seedGap, n) == Success(results)
    ensures step.Success? ==> SearchFrames(query, subject, seedLen, seedGap, n + 1) == step
    ensures step.Failure? ==> SearchFrames(query, subject, seedLen, seedGap, |query|) == step
  {
    var seeds := SeedSliding(query[n].1, seedLen, seedGap);
    if seeds.Failure? {
      step := Failure(seeds.error);
    } else {
      var regions := ExtendStrict(seeds.value, subject);
      if regions.Failure? {
        step := Failure(regions.error);
      } else {
        step := Success(results + [(query[n].0, regions.value)]);
      }
    }
    if step.Failure? {
      FramesFailureStays(query, subject, seedLen, seedGap, n + 1, |query|);
    }
  }

  lemma {:induction false} FramesFailureStays<F>(query: seq<(F, string)>, subject: map<string, seq<Hit>>, slen: nat, sgap: nat, n: nat, m: nat)
    requires n <= m <= |query| && SearchFrames(query, subject, slen, sgap, n).Failure?
    ensures SearchFrames(query, subject, slen, sgap, m) == SearchFrames(query, subject, slen, sgap, n)
    decreases m - n
  {
    if n < m {
      FramesFailureStays(query, subject, slen, sgap, n, m - 1);
    }
  }
}
