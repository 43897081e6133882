/** The copy of the affine local alignment with fixed scoring: a match scores 5,
    a mismatch -1, and the gap penalties are -3 to open and -1 to extend,
    whatever score matrix the caller passes. It runs the same fill and traceback
    as the class in module Gotoh; what is particular to it is its scoring, and
    the theorem that a string aligned with itself comes back whole. */
module GotohFixed {
  import opened GotohSpec
  import opened Gotoh
  import opened Grid

  const MATCH := 5
  const MISMATCH := -1
  const GAPOPEN := -3
  const GAPEXT := -1

  /** `test_score_matrix`: MATCH for equal characters and MISMATCH otherwise.
      The test for '-' names an exception class without raising it, so it falls
      through to MISMATCH. */
  function TestScoreMatrix(xc: char, yc: char): (r: int)
    ensures r == MATCH <==> xc == yc
    ensures r == MISMATCH <==> xc != yc
  {
    if xc == yc then MATCH
    else if xc == '-' || yc == '-' then MISMATCH
    else MISMATCH
  }

  /** The recurrences of this copy: `_match` compares the two residues and
      ignores the score matrix, which is the same as scoring with
      `test_score_matrix`. */
  function FixedSetup(x: string, y: string): Setup
  {
    Setup(x, y, TestScoreMatrix, GAPOPEN, GAPEXT)
  }

  /** No local alignment ending at (i, j) scores more than a match in every
      column, and one that ends in a gap loses at least the opening of it. */
  lemma {:induction false} Bounds(x: string, y: string, i: nat, j: nat)
    requires i <= |x| && j <= |y|
    ensures MCell(FixedSetup(x, y), i, j) <= 5 * Min(i, j)
    ensures i >= 1 && j >= 1 ==> XCell(FixedSetup(x, y), i, j).v <= 5 * Min(i - 1, j) - 4
    ensures i >= 1 && j >= 1 ==> YCell(FixedSetup(x, y), i, j).v <= 5 * Min(i, j - 1) - 4
    decreases i + j
  {
    if i >= 1 && j >= 1 {
      Bounds(x, y, i - 1, j - 1);
      Bounds(x, y, i - 1, j);
      Bounds(x, y, i, j - 1);
      XBound(x, y, i, j);
      YBound(x, y, i, j);
      MBound(x, y, i, j);
    }
  }

  /** The gap-in-y cell from the cells above it. */
  lemma XBound(x: string, y: string, i: nat, j: nat)
    requires 1 <= i <= |x| && 1 <= j <= |y|
    requires MCell(FixedSetup(x, y), i - 1, j) <= 5 * Min(i - 1, j)
    requires i >= 2 ==> XCell(FixedSetup(x, y), i - 1, j).v <= 5 * Min(i - 2, j) - 4
    ensures XCell(FixedSetup(x, y), i, j).v <= 5 * Min(i - 1, j) - 4
  {
  }

  /** The gap-in-x cell from the cells to its left. */
  lemma YBound(x: string, y: string, i: nat, j: nat)
    requires 1 <= i <= |x| && 1 <= j <= |y|
    requires MCell(FixedSetup(x, y), i, j - 1) <= 5 * Min(i, j - 1)
    requires j >= 2 ==> YCell(FixedSetup(x, y), i, j - 1).v <= 5 * Min(i, j - 2) - 4
    ensures YCell(FixedSetup(x, y), i, j).v <= 5 * Min(i, j - 1) - 4
  {
  }

  /** The match cell from its diagonal neighbour and the two gap cells. */
  lemma MBound(x: string, y: string, i: nat, j: nat)
    requires 1 <= i <= |x| && 1 <= j <= |y|
    requires MCell(FixedSetup(x, y), i - 1, j - 1) <= 5 * Min(i - 1, j - 1)
    requires XCell(FixedSetup(x, y), i, j).v <= 5 * Min(i - 1, j) - 4
    requires YCell(FixedSetup(x, y), i, j).v <= 5 * Min(i, j - 1) - 4
    ensures MCell(FixedSetup(x, y), i, j) <= 5 * Min(i, j)
  {
    assert FixedSetup(x, y).s(x[i - 1], y[j - 1]) <= MATCH;
  }

  /** Aligning x with itself, the diagonal cell (i, i) scores a match per
      residue. */
  lemma {:induction false} DiagonalValue(x: string, i: nat)
    requires i <= |x|
    ensures MCell(FixedSetup(x, x), i, i) == 5 * i
  {
    if i >= 1 {
      DiagonalValue(x, i - 1);
      Bounds(x, x, i, i);
      assert FixedSetup(x, x).s(x[i - 1], x[i - 1]) == MATCH;
    }
  }

  /** The columns pairing each of the first i residues of x with itself. */
  function SelfColumns(x: string, i: nat): (cols: seq<Column>)
    requires i <= |x|
    ensures |cols| == i && forall k :: 0 <= k < i ==> cols[k] == Diag(x[k], x[k])
  {
    seq(i, k requires 0 <= k < i => Diag(x[k], x[k]))
  }

  /** One step of the walk of x against itself: from (i, i) it goes
      diagonally to (i - 1, i - 1). */
  lemma SelfStep(x: string, i: nat)
    requires 1 <= i <= |x|
    ensures MCell(FixedSetup(x, x), i, i) == 5 * i && MCell(FixedSetup(x, x), i - 1, i - 1) == 5 * (i - 1)
    ensures var t := Walk(FixedSetup(x, x), i - 1, i - 1, Fin(5 * (i - 1)));
      Walk(FixedSetup(x, x), i, i, Fin(5 * i)) == Trace(t.cols + [Diag(x[i - 1], x[i - 1])], t.startI, t.startJ)
  {
    DiagonalValue(x, i);
    DiagonalValue(x, i - 1);
    Bounds(x, x, i, i);
    WalkDiagonal(FixedSetup(x, x), i, i, Fin(5 * i));
  }

  lemma SelfColumnsSnoc(x: string, i: nat)
    requires 1 <= i <= |x|
    ensures SelfColumns(x, i - 1) + [Diag(x[i - 1], x[i - 1])] == SelfColumns(x, i)
  {
  }

  /** From (i, i) the traceback of x against itself steps diagonally all the way
      to (0, 0): neither gap matrix ever reaches the value of M. */
  lemma {:induction false} SelfWalk(x: string, i: nat)
    requires i <= |x|
    ensures MCell(FixedSetup(x, x), i, i) == 5 * i
    ensures Walk(FixedSetup(x, x), i, i, Fin(5 * i)) == Trace(SelfColumns(x, i), 0, 0)
  {
    if i >= 1 {
      SelfStep(x, i);
      SelfWalk(x, i - 1);
      SelfColumnsSnoc(x, i);
    } else {
      DiagonalValue(x, 0);
      assert Walk(FixedSetup(x, x), 0, 0, Fin(0)) == Trace([], 0, 0);
    }
  }

  /** With x aligned against itself, the only maximal cell of M is the last
      diagonal cell, and the maximum is a match per residue. */
  lemma SelfMaxCells(x: string, best: int, locs: seq<(nat, nat)>)
    requires |x| >= 1 && MaxCells(FixedSetup(x, x), best, locs) && locs != []
    ensures best == 5 * |x| && locs == [(|x|, |x|)]
  {
    DiagonalValue(x, |x|);
    FirstTwoDiffer(FixedSetup(x, x), best, locs);
    OnlyLastCell(x, locs[0].0, locs[0].1);
    forall k | 0 <= k < |locs|
      ensures locs[k] == (|x|, |x|)
    {
      OnlyLastCell(x, locs[k].0, locs[k].1);
    }
  }

  /** Only the last diagonal cell reaches a match per residue of x. */
  lemma OnlyLastCell(x: string, i: nat, j: nat)
    requires i <= |x| && j <= |x| && MCell(FixedSetup(x, x), i, j) >= 5 * |x|
    ensures (i, j) == (|x|, |x|)
  {
    Bounds(x, x, i, j);
  }

  /** The maximal cells are listed in strict row-major order, so no cell is
      listed twice. */
  lemma FirstTwoDiffer(p: Setup, best: int, locs: seq<(nat, nat)>)
    requires MaxCells(p, best, locs)
    ensures |locs| >= 2 ==> locs[0] != locs[1]
  {
    if |locs| >= 2 {
      assert RowMajorBefore(locs[0], locs[1]);
    }
  }

  /** A string of n marker bars. */
  function Bars(n: nat): (r: string)
    ensures |r| == n && forall k :: 0 <= k < n ==> r[k] == '|'
  {
    seq(n, _ => '|')
  }

  /** The traceback of x against itself from the last diagonal cell gives x on
      both lines, a bar in every column, and the whole of x as both ranges. */
  lemma SelfRender(x: string)
    requires |x| >= 1
    ensures Render(FixedSetup(x, x), |x|, |x|) == Alignment(x, x, Bars(|x|), (0, |x| - 1), (0, |x| - 1))
  {
    var p := FixedSetup(x, x);
    var m := |x|;
    SelfWalk(x, m);
    var t := Walk(p, m, m, Fin(5 * m));
    RenderWalk(p, m, m, t);
    assert AlignedX(t.cols) == x;
    assert AlignedY(t.cols) == x;
    assert Marker(t.cols) == Bars(m);
  }

  /** Build, fill and trace back, as a caller of this copy does. The score
      matrix argument is accepted and not used. The maximal cells come back as
      `locs`; each alignment is the traceback from the matching cell. Aligning a
      non-empty string with itself scores a match per residue and gives one
      gap-free alignment marked with bars throughout. */
  method AlignFixed(seqX: string, seqY: string, scoreMatrix: (char, char) -> int)
    returns (score: int, ax: seq<string>, ay: seq<string>, xs: seq<string>, ghost locs: seq<(nat, nat)>)
    ensures MaxCells(FixedSetup(seqX, seqY), score, locs) && locs != []
    ensures |ax| == |ay| == |xs| == |locs|
    ensures forall k :: 0 <= k < |locs| ==>
      var r := Render(FixedSetup(seqX, seqY), locs[k].0, locs[k].1);
      ax[k] == r.alignX && ay[k] == r.alignY && xs[k] == r.xscript
    ensures seqX == seqY && |seqX| >= 1 ==>
      score == 5 * |seqX| && ax == [seqX] && ay == [seqX] && xs == [Bars(|seqX|)]
  {
    var la := new LocalAlignment(seqX, seqY, TestScoreMatrix, GAPOPEN, GAPEXT);
    score := la.FillMatrix();
    locs := la.maxLocList;
    var lx, ly;
    score, ax, ay, xs, lx, ly := la.Traceback();
    if seqX == seqY && |seqX| >= 1 {
      SelfAlignment(seqX, score, ax, ay, xs, locs);
    }
  }

  /** Whatever the fill and traceback report for x against itself, if it is
      what the recurrences define, it is one alignment of all of x with
      itself, scoring a match per residue. */
  lemma SelfAlignment(x: string, score: int, ax: seq<string>, ay: seq<string>, xs: seq<string>, locs: seq<(nat, nat)>)
    requires |x| >= 1 && MaxCells(FixedSetup(x, x), score, locs) && locs != []
    requires |ax| == |ay| == |xs| == |locs|
    requires forall k :: 0 <= k < |locs| ==>
      var r := Render(FixedSetup(x, x), locs[k].0, locs[k].1);
      ax[k] == r.alignX && ay[k] == r.alignY && xs[k] == r.xscript
    ensures score == 5 * |x| && ax == [x] && ay == [x] && xs == [Bars(|x|)]
  {
    SelfMaxCells(x, score, locs);
    SelfRender(x);
  }
}
