/** The affine-gap local alignment (Gotoh's variant of Smith-Waterman) as pure
    definitions: the three matrices cell by cell, the traceback walk, and what is
    proved about them. The class in module Gotoh fills arrays and is proved to
    agree with these definitions. */
module GotohSpec {
  import opened Text
  import opened Grid

  /** A cell of the gap matrices X and Y: numpy's NaN, minus infinity, or a
      finite score. Every score the source computes is a whole number. */
  datatype Cell = NaN | NegInf | Fin(v: int)

  /** What the class is constructed from: the two sequences, the residue score
      `s(a, b)`, the gap-open and the gap-extend scores. */
  datatype Setup = Setup(x: string, y: string, s: (char, char) -> int, go: int, ge: int)
  {
    predicate InRange(i: int, j: int)
    {
      0 <= i <= |x| && 0 <= j <= |y|
    }
  }

  /** `c + d` on a gap cell; the cell may not be NaN (the fill never reads one). */
  function Plus(c: Cell, d: int): Cell
    requires !c.NaN?
  {
    if c.NegInf? then NegInf else Fin(c.v + d)
  }

  /** Python `max(a, c)` for a finite `a` and a gap cell that is not NaN. */
  function MaxCell(a: int, c: Cell): (r: Cell)
    requires !c.NaN?
    ensures r.Fin? && a <= r.v
  {
    if c.Fin? && a < c.v then c else Fin(a)
  }

  /** X[i][j]: best score of an alignment of x[..i], y[..j] that ends with x[i-1]
      against a gap. Column 0 is NaN and row 0 is minus infinity. */
  ghost function XCell(p: Setup, i: nat, j: nat): (r: Cell)
    requires p.InRange(i, j)
    ensures j >= 1 ==> !r.NaN?
    ensures i >= 1 && j >= 1 ==> r.Fin?
    decreases i + j, 0
  {
    if j == 0 then NaN
    else if i == 0 then NegInf
    else MaxCell(MCell(p, i - 1, j) + p.go + p.ge, Plus(XCell(p, i - 1, j), p.ge))
  }

  /** Y[i][j]: best score of an alignment that ends with y[j-1] against a gap.
      Row 0 is NaN and column 0 is minus infinity. */
  ghost function YCell(p: Setup, i: nat, j: nat): (r: Cell)
    requires p.InRange(i, j)
    ensures i >= 1 ==> !r.NaN?
    ensures i >= 1 && j >= 1 ==> r.Fin?
    decreases i + j, 0
  {
    if i == 0 then NaN
    else if j == 0 then NegInf
    else MaxCell(MCell(p, i, j - 1) + p.go + p.ge, Plus(YCell(p, i, j - 1), p.ge))
  }

  /** M[i][j]: best score of a local alignment ending at cell (i, j), floored at 0.
      Row 0 and column 0 are 0. */
  ghost function MCell(p: Setup, i: nat, j: nat): (r: int)
    requires p.InRange(i, j)
    decreases i + j, 1
  {
    if i == 0 || j == 0 then 0
    else Max(Max(MCell(p, i - 1, j - 1) + p.s(p.x[i - 1], p.y[j - 1]), XCell(p, i, j).v),
             Max(YCell(p, i, j).v, 0))
  }

  /** The local-floor invariant: no cell of M is negative, and in the interior M
      is at least X and at least Y. */
  lemma LocalFloor(p: Setup, i: nat, j: nat)
    requires p.InRange(i, j)
    ensures MCell(p, i, j) >= 0
    ensures i >= 1 && j >= 1 ==> MCell(p, i, j) >= XCell(p, i, j).v && MCell(p, i, j) >= YCell(p, i, j).v
  {
  }

  /** `locs` lists, in row-major order and each once, exactly the cells of M that
      hold `best`, and no cell of M exceeds `best`. */
  ghost predicate MaxCells(p: Setup, best: int, locs: seq<(nat, nat)>)
  {
    && (forall i, j :: p.InRange(i, j) ==> MCell(p, i, j) <= best)
    && (forall k :: 0 <= k < |locs| ==> p.InRange(locs[k].0, locs[k].1) && MCell(p, locs[k].0, locs[k].1) == best)
    && (forall i, j :: p.InRange(i, j) && MCell(p, i, j) == best ==> (i, j) in locs)
    && (forall k, l :: 0 <= k < l < |locs| ==> RowMajorBefore(locs[k], locs[l]))
  }

  /** The maximum is determined, and so are the cells holding it: two
      non-empty lists of maximal cells hold the same cells. */
  lemma MaxCellsSame(p: Setup, best: int, locs: seq<(nat, nat)>, best2: int, locs2: seq<(nat, nat)>)
    requires MaxCells(p, best, locs) && locs != []
    requires MaxCells(p, best2, locs2) && locs2 != []
    ensures best == best2
    ensures forall k :: 0 <= k < |locs| ==> locs[k] in locs2
    ensures forall k :: 0 <= k < |locs2| ==> locs2[k] in locs
  {
    assert MCell(p, locs[0].0, locs[0].1) == best <= best2;
    assert MCell(p, locs2[0].0, locs2[0].1) == best2 <= best;
  }

  /** When two cells a, b are the maximal cells, every non-empty list of
      maximal cells is [a, b]. */
  lemma MaxCellsPair(p: Setup, best: int, locs: seq<(nat, nat)>, best2: int, a: (nat, nat), b: (nat, nat))
    requires MaxCells(p, best, locs) && locs != []
    requires MaxCells(p, best2, [a, b])
    ensures best == best2 && locs == [a, b]
  {
    MaxCellsSame(p, best, locs, best2, [a, b]);
    assert [a, b][0] == a && [a, b][1] == b;
    RowMajorPair(locs, a, b);
  }

  // ---------------------------------------------------------------- traceback

  /** One column of an alignment: a residue pair, a gap written into x (the walk
      consumed y[j-1]), or a gap written into y (the walk consumed x[i-1]). */
  datatype Column = Diag(a: char, b: char) | GapInX(b: char) | GapInY(a: char)

  /** The result of one walk: its columns from left to right and the cell where it
      stopped. */
  datatype Trace = Trace(cols: seq<Column>, startI: nat, startJ: nat)

  /** What holds of the loop variables `i`, `j`, `v` of the source's traceback at
      the top of every iteration: `v` is finite and non-negative, and `v` is 0
      exactly when the M cell under the walk is 0. */
  ghost predicate WalkInv(p: Setup, i: nat, j: nat, v: Cell)
    requires p.InRange(i, j)
  {
    v.Fin? && v.v >= 0 && (v.v == 0 <==> MCell(p, i, j) == 0)
  }

  /** After a gap-extend step along Y the walk is still in a valid state. */
  lemma ExtendY(p: Setup, i: nat, j: nat)
    requires p.ge <= 0 && p.InRange(i, j) && i >= 1 && j >= 1
    requires YCell(p, i, j) == Fin(MCell(p, i, j)) && MCell(p, i, j) > 0
    requires YCell(p, i, j) == Plus(YCell(p, i, j - 1), p.ge)
    ensures j >= 2 && WalkInv(p, i, j - 1, YCell(p, i, j - 1))
  {
    LocalFloor(p, i, j - 1);
  }

  /** After a gap-extend step along X the walk is still in a valid state. */
  lemma ExtendX(p: Setup, i: nat, j: nat)
    requires p.ge <= 0 && p.InRange(i, j) && i >= 1 && j >= 1
    requires XCell(p, i, j) == Fin(MCell(p, i, j)) && MCell(p, i, j) > 0
    requires XCell(p, i, j) == Plus(XCell(p, i - 1, j), p.ge)
    ensures i >= 2 && WalkInv(p, i - 1, j, XCell(p, i - 1, j))
  {
    LocalFloor(p, i - 1, j);
  }

  /** The state of the source's traceback loop: the cell (i, j) and the value v. */
  datatype WalkState = WalkState(i: nat, j: nat, v: Cell)

  /** One iteration of the source's traceback loop from cell (i, j) with a
      non-zero value v: the column it emits and the next state. The branch is
      chosen from M again at every cell, in the order Y (gap in x), X (gap in y),
      diagonal; after a gap step the next value is the gap matrix's own
      predecessor when the gap was extended and M's when it was opened. With a
      gap-extend score of at most 0 one branch always applies, and each step
      lowers i + j. */
  ghost function Step(p: Setup, i: nat, j: nat, v: Cell): (r: (Column, WalkState))
    requires p.ge <= 0 && p.InRange(i, j) && WalkInv(p, i, j, v) && v != Fin(0)
    ensures p.InRange(r.1.i, r.1.j) && WalkInv(p, r.1.i, r.1.j, r.1.v)
    ensures || (r.0 == GapInX(p.y[j - 1]) && r.1.i == i && r.1.j == j - 1)
            || (r.0 == GapInY(p.x[i - 1]) && r.1.i == i - 1 && r.1.j == j)
            || (r.0 == Diag(p.x[i - 1], p.y[j - 1]) && r.1.i == i - 1 && r.1.j == j - 1)
  {
    var m := MCell(p, i, j);
    if Fin(m) == YCell(p, i, j) then
      if YCell(p, i, j) == Plus(YCell(p, i, j - 1), p.ge) then
        ExtendY(p, i, j);
        (GapInX(p.y[j - 1]), WalkState(i, j - 1, YCell(p, i, j - 1)))
      else
        (GapInX(p.y[j - 1]), WalkState(i, j - 1, Fin(MCell(p, i, j - 1))))
    else if Fin(m) == XCell(p, i, j) then
      if XCell(p, i, j) == Plus(XCell(p, i - 1, j), p.ge) then
        ExtendX(p, i, j);
        (GapInY(p.x[i - 1]), WalkState(i - 1, j, XCell(p, i - 1, j)))
      else
        (GapInY(p.x[i - 1]), WalkState(i - 1, j, Fin(MCell(p, i - 1, j))))
    else
      // the source's third test, which therefore always succeeds
      assert m == MCell(p, i - 1, j - 1) + p.s(p.x[i - 1], p.y[j - 1]);
      (Diag(p.x[i - 1], p.y[j - 1]), WalkState(i - 1, j - 1, Fin(MCell(p, i - 1, j - 1))))
  }

  /** The source's whole traceback from cell (i, j) with value v: iterate `Step`
      until the value is 0. The columns come out left to right (the source builds
      them right to left and reverses). */
  ghost function Walk(p: Setup, i: nat, j: nat, v: Cell): (t: Trace)
    requires p.ge <= 0 && p.InRange(i, j) && WalkInv(p, i, j, v)
    decreases i + j
  {
    if v == Fin(0) then Trace([], i, j)
    else
      var st := Step(p, i, j, v);
      var t := Walk(p, st.1.i, st.1.j, st.1.v);
      Trace(t.cols + [st.0], t.startI, t.startJ)
  }

  /** The walk `whole` continues as the walk from (i, j) with value v, followed
      by the columns `done` already emitted: what holds at the top of every
      iteration of the source's loop. */
  ghost predicate Resumes(p: Setup, whole: Trace, i: nat, j: nat, v: Cell, done: seq<Column>)
    requires p.ge <= 0 && p.InRange(i, j) && WalkInv(p, i, j, v)
  {
    var t := Walk(p, i, j, v);
    whole.cols == t.cols + done && whole.startI == t.startI && whole.startJ == t.startJ
  }

  lemma ResumesStep(p: Setup, whole: Trace, i: nat, j: nat, v: Cell, done: seq<Column>)
    requires p.ge <= 0 && p.InRange(i, j) && WalkInv(p, i, j, v) && v != Fin(0)
    requires Resumes(p, whole, i, j, v, done)
    ensures var st := Step(p, i, j, v);
      p.InRange(st.1.i, st.1.j) && WalkInv(p, st.1.i, st.1.j, st.1.v)
      && Resumes(p, whole, st.1.i, st.1.j, st.1.v, [st.0] + done)
  {
    var st := Step(p, i, j, v);
    WalkUnfold(p, i, j, v, st.0, st.1);
    var rest := Walk(p, st.1.i, st.1.j, st.1.v);
    assert rest.cols + [st.0] + done == rest.cols + ([st.0] + done);
  }

  lemma ResumesEnd(p: Setup, whole: Trace, i: nat, j: nat, done: seq<Column>)
    requires p.ge <= 0 && p.InRange(i, j) && WalkInv(p, i, j, Fin(0))
    requires Resumes(p, whole, i, j, Fin(0), done)
    ensures whole == Trace(done, i, j)
  {
    assert Walk(p, i, j, Fin(0)) == Trace([], i, j);
    assert [] + done == done;
  }

  // ---------------------------------------------------------------- rendering

  /** The character a column puts into aligned x ('_' for a gap in x). */
  function XChar(c: Column): char
  {
    match c
    case Diag(a, _) => a
    case GapInX(_) => '_'
    case GapInY(a) => a
  }

  /** The character a column puts into aligned y ('_' for a gap in y). */
  function YChar(c: Column): char
  {
    match c
    case Diag(_, b) => b
    case GapInX(b) => b
    case GapInY(_) => '_'
  }

  /** The marker: '|' for equal residues, '*' for unequal ones, ' ' for a gap. */
  function MarkChar(c: Column): char
  {
    match c
    case Diag(a, b) => if a == b then '|' else '*'
    case _ => ' '
  }

  function AlignedX(cols: seq<Column>): string
  {
    seq(|cols|, k requires 0 <= k < |cols| => XChar(cols[k]))
  }

  function AlignedY(cols: seq<Column>): string
  {
    seq(|cols|, k requires 0 <= k < |cols| => YChar(cols[k]))
  }

  function Marker(cols: seq<Column>): string
  {
    seq(|cols|, k requires 0 <= k < |cols| => MarkChar(cols[k]))
  }

  /** `ax`, `ay` and `mk` are the three rows of the columns `done` written right
      to left, as the traceback loop builds them before reversing. */
  predicate ReversedRows(done: seq<Column>, ax: string, ay: string, mk: string)
  {
    && |ax| == |ay| == |mk| == |done|
    && forall k :: 0 <= k < |done| ==>
      && ax[k] == XChar(done[|done| - 1 - k])
      && ay[k] == YChar(done[|done| - 1 - k])
      && mk[k] == MarkChar(done[|done| - 1 - k])
  }

  lemma ReversedRowsStep(done: seq<Column>, ax: string, ay: string, mk: string, c: Column)
    requires ReversedRows(done, ax, ay, mk)
    ensures ReversedRows([c] + done, ax + [XChar(c)], ay + [YChar(c)], mk + [MarkChar(c)])
  {
  }

  /** Reversing the rows built right to left gives the rendering of the columns. */
  lemma ReversedRowsRender(done: seq<Column>, ax: string, ay: string, mk: string)
    requires ReversedRows(done, ax, ay, mk)
    ensures Reverse(ax) == AlignedX(done) && Reverse(ay) == AlignedY(done) && Reverse(mk) == Marker(done)
  {
    ReversedRowX(done, ax);
    ReversedRowY(done, ay);
    ReversedMarker(done, mk);
  }

  lemma ReversedRowX(done: seq<Column>, ax: string)
    requires |ax| == |done| && forall k :: 0 <= k < |done| ==> ax[k] == XChar(done[|done| - 1 - k])
    ensures Reverse(ax) == AlignedX(done)
  {
  }

  lemma ReversedRowY(done: seq<Column>, ay: string)
    requires |ay| == |done| && forall k :: 0 <= k < |done| ==> ay[k] == YChar(done[|done| - 1 - k])
    ensures Reverse(ay) == AlignedY(done)
  {
  }

  lemma ReversedMarker(done: seq<Column>, mk: string)
    requires |mk| == |done| && forall k :: 0 <= k < |done| ==> mk[k] == MarkChar(done[|done| - 1 - k])
    ensures Reverse(mk) == Marker(done)
  {
  }

  /** The residues of x that the columns use, in order. */
  function ConsumedX(cols: seq<Column>): string
  {
    if cols == [] then []
    else ConsumedX(cols[..|cols| - 1]) + (if cols[|cols| - 1].GapInX? then [] else [cols[|cols| - 1].a])
  }

  /** The residues of y that the columns use, in order. */
  function ConsumedY(cols: seq<Column>): string
  {
    if cols == [] then []
    else ConsumedY(cols[..|cols| - 1]) + (if cols[|cols| - 1].GapInY? then [] else [cols[|cols| - 1].b])
  }

  /** `s` with every '_' deleted. */
  function DeleteGaps(s: string): string
  {
    if s == [] then [] else DeleteGaps(s[..|s| - 1]) + (if s[|s| - 1] == '_' then [] else [s[|s| - 1]])
  }

  /** The trace `t` of a walk from (i, j) stopped at a cell of M that is 0, up and
      to the left of (i, j), and its columns use exactly x[startI..i] and
      y[startJ..j]. */
  ghost predicate Covers(p: Setup, i: nat, j: nat, t: Trace)
    requires p.InRange(i, j)
  {
    && t.startI <= i && t.startJ <= j
    && MCell(p, t.startI, t.startJ) == 0
    && ConsumedX(t.cols) == p.x[t.startI..i]
    && ConsumedY(t.cols) == p.y[t.startJ..j]
    && |t.cols| <= (i - t.startI) + (j - t.startJ)
  }

  lemma CoversStep(p: Setup, i: nat, j: nat, c: Column, n: WalkState, t: Trace)
    requires p.InRange(i, j) && p.InRange(n.i, n.j) && Covers(p, n.i, n.j, t)
    requires || (j >= 1 && n.i == i && n.j == j - 1 && c == GapInX(p.y[j - 1]))
             || (i >= 1 && n.i == i - 1 && n.j == j && c == GapInY(p.x[i - 1]))
             || (i >= 1 && j >= 1 && n.i == i - 1 && n.j == j - 1 && c == Diag(p.x[i - 1], p.y[j - 1]))
    ensures Covers(p, i, j, Trace(t.cols + [c], t.startI, t.startJ))
  {
    ConsumedSnoc(t.cols, c);
    if n.i < i {
      SliceSnoc(p.x, t.startI, i);
    }
    if n.j < j {
      SliceSnoc(p.y, t.startJ, j);
    }
  }

  /** Appending a column appends what it uses of x and of y. */
  lemma ConsumedSnoc(cols: seq<Column>, c: Column)
    ensures ConsumedX(cols + [c]) == ConsumedX(cols) + (if c.GapInX? then [] else [c.a])
    ensures ConsumedY(cols + [c]) == ConsumedY(cols) + (if c.GapInY? then [] else [c.b])
  {
    assert (cols + [c])[..|cols + [c]| - 1] == cols;
  }

  lemma SliceSnoc(s: string, a: nat, b: nat)
    requires a < b <= |s|
    ensures s[a..b] == s[a..b - 1] + [s[b - 1]]
  {
  }

  /** Every walk covers: it stops at a 0 cell of M, each step lowers i + j, and
      the columns use a contiguous piece of x and of y that ends at (i, j). */
  lemma {:induction false} WalkCovers(p: Setup, i: nat, j: nat, v: Cell)
    requires p.ge <= 0 && p.InRange(i, j) && WalkInv(p, i, j, v)
    ensures Covers(p, i, j, Walk(p, i, j, v))
    decreases i + j
  {
    if v != Fin(0) {
      var (c, n) := Step(p, i, j, v);
      WalkCovers(p, n.i, n.j, n.v);
      CoversStep(p, i, j, c, n, Walk(p, n.i, n.j, n.v));
    }
  }

  /** When the residues used contain no '_', deleting '_' from the aligned row
      gives back exactly those residues. */
  lemma {:induction false} DeleteGapsX(cols: seq<Column>)
    requires '_' !in ConsumedX(cols)
    ensures DeleteGaps(AlignedX(cols)) == ConsumedX(cols)
  {
    if cols != [] {
      var init := cols[..|cols| - 1];
      assert AlignedX(cols)[..|cols| - 1] == AlignedX(init);
      assert ConsumedX(cols) == ConsumedX(init) + (if cols[|cols| - 1].GapInX? then [] else [cols[|cols| - 1].a]);
      DeleteGapsX(init);
    }
  }

  lemma {:induction false} DeleteGapsY(cols: seq<Column>)
    requires '_' !in ConsumedY(cols)
    ensures DeleteGaps(AlignedY(cols)) == ConsumedY(cols)
  {
    if cols != [] {
      var init := cols[..|cols| - 1];
      assert AlignedY(cols)[..|cols| - 1] == AlignedY(init);
      assert ConsumedY(cols) == ConsumedY(init) + (if cols[|cols| - 1].GapInY? then [] else [cols[|cols| - 1].b]);
      DeleteGapsY(init);
    }
  }

  lemma SliceExcludes<T>(s: seq<T>, a: nat, b: nat, e: T)
    requires a <= b <= |s| && e !in s
    ensures e !in s[a..b]
  {
    assert forall k | a <= k < b :: s[a..b][k - a] == s[k];
  }

  lemma {:induction false} GapMarks(cols: seq<Column>)
    requires '_' !in ConsumedX(cols) && '_' !in ConsumedY(cols)
    ensures forall k :: 0 <= k < |cols| ==>
      && (XChar(cols[k]) == '_' <==> cols[k].GapInX?)
      && (YChar(cols[k]) == '_' <==> cols[k].GapInY?)
  {
    if cols != [] {
      var init := cols[..|cols| - 1];
      assert ConsumedX(cols) == ConsumedX(init) + (if cols[|cols| - 1].GapInX? then [] else [cols[|cols| - 1].a]);
      assert ConsumedY(cols) == ConsumedY(init) + (if cols[|cols| - 1].GapInY? then [] else [cols[|cols| - 1].b]);
      GapMarks(init);
      assert forall k :: 0 <= k < |init| ==> cols[k] == init[k];
    }
  }

  /** What the source's traceback reports for one maximal cell: aligned x,
      aligned y, the marker line, and the ranges [start, end] in x and y. */
  datatype Alignment = Alignment(alignX: string, alignY: string, xscript: string, locX: (int, int), locY: (int, int))

  /** The traceback's output for the walk that starts at cell (i, j) with the
      value M[i][j]. The ranges end at i - 1 and j - 1 and start where the walk
      stopped. */
  ghost function Render(p: Setup, i: nat, j: nat): Alignment
    requires p.ge <= 0 && p.InRange(i, j)
  {
    LocalFloor(p, i, j);
    var t := Walk(p, i, j, Fin(MCell(p, i, j)));
    Alignment(AlignedX(t.cols), AlignedY(t.cols), Marker(t.cols), (t.startI, i - 1), (t.startJ, j - 1))
  }

  lemma RenderWalk(p: Setup, i: nat, j: nat, t: Trace)
    requires p.ge <= 0 && p.InRange(i, j) && MCell(p, i, j) >= 0
    requires t == Walk(p, i, j, Fin(MCell(p, i, j)))
    ensures Render(p, i, j) == Alignment(AlignedX(t.cols), AlignedY(t.cols), Marker(t.cols), (t.startI, i - 1), (t.startJ, j - 1))
  {
  }

  /** The three rows have one character per column; a gap column has '_' on
      exactly one side and ' ' in the marker; a residue pair has '|' when the
      residues are equal and '*' when they differ. */
  lemma RenderShape(p: Setup, i: nat, j: nat)
    requires p.ge <= 0 && p.InRange(i, j)
    requires '_' !in p.x && '_' !in p.y
    ensures var r := Render(p, i, j);
      && |r.alignX| == |r.alignY| == |r.xscript|
      && forall k :: 0 <= k < |r.xscript| ==>
        && (r.alignX[k] == '_' ==> r.alignY[k] != '_' && r.xscript[k] == ' ')
        && (r.alignY[k] == '_' ==> r.alignX[k] != '_' && r.xscript[k] == ' ')
        && (r.alignX[k] != '_' && r.alignY[k] != '_' ==>
              r.xscript[k] == (if r.alignX[k] == r.alignY[k] then '|' else '*'))
  {
    var t := RenderTrace(p, i, j);
    SliceExcludes(p.x, t.startI, i, '_');
    SliceExcludes(p.y, t.startJ, j, '_');
    GapMarks(t.cols);
  }

  /** The reported ranges: the walk stops at a cell of M that is 0, start <= end + 1,
      and for sequences without '_', deleting '_' from aligned x gives
      x[start..end + 1] (likewise for y); so the alignment is a local alignment of
      exactly those pieces. */
  lemma RenderRanges(p: Setup, i: nat, j: nat)
    requires p.ge <= 0 && p.InRange(i, j)
    requires '_' !in p.x && '_' !in p.y
    ensures var r := Render(p, i, j);
      && 0 <= r.locX.0 <= r.locX.1 + 1 == i
      && 0 <= r.locY.0 <= r.locY.1 + 1 == j
      && MCell(p, r.locX.0, r.locY.0) == 0
      && DeleteGaps(r.alignX) == p.x[r.locX.0..r.locX.1 + 1]
      && DeleteGaps(r.alignY) == p.y[r.locY.0..r.locY.1 + 1]
  {
    var t := RenderTrace(p, i, j);
    CoveredRows(p, i, j, t);
  }

  /** The walk behind a rendering covers, and the rendering is its rows and
      ranges. */
  lemma RenderTrace(p: Setup, i: nat, j: nat) returns (t: Trace)
    requires p.ge <= 0 && p.InRange(i, j)
    ensures Covers(p, i, j, t)
    ensures Render(p, i, j) == Alignment(AlignedX(t.cols), AlignedY(t.cols), Marker(t.cols), (t.startI, i - 1), (t.startJ, j - 1))
  {
    LocalFloor(p, i, j);
    t := Walk(p, i, j, Fin(MCell(p, i, j)));
    WalkCovers(p, i, j, Fin(MCell(p, i, j)));
    RenderWalk(p, i, j, t);
  }

  /** The aligned rows of a covering trace, with '_' deleted, are the pieces of
      x and y it covers. */
  lemma CoveredRows(p: Setup, i: nat, j: nat, t: Trace)
    requires p.InRange(i, j) && Covers(p, i, j, t)
    requires '_' !in p.x && '_' !in p.y
    ensures DeleteGaps(AlignedX(t.cols)) == p.x[t.startI..i]
    ensures DeleteGaps(AlignedY(t.cols)) == p.y[t.startJ..j]
  {
    SliceExcludes(p.x, t.startI, i, '_');
    SliceExcludes(p.y, t.startJ, j, '_');
    DeleteGapsX(t.cols);
    DeleteGapsY(t.cols);
  }

  // ------------------------------------------------------- score of a trace

  /** The score of a column given the columns to its left: s(a, b) for a residue
      pair, go + ge for the first column of a run of gaps of one kind, and ge for
      every further column of that run. */
  function ColumnCost(p: Setup, before: seq<Column>, c: Column): int
  {
    match c
    case Diag(a, b) => p.s(a, b)
    case GapInX(_) => if before != [] && before[|before| - 1].GapInX? then p.ge else p.go + p.ge
    case GapInY(_) => if before != [] && before[|before| - 1].GapInY? then p.ge else p.go + p.ge
  }

  /** The affine-gap score of an alignment given by its columns. */
  function AffineScore(p: Setup, cols: seq<Column>): int
  {
    if cols == [] then 0
    else AffineScore(p, cols[..|cols| - 1]) + ColumnCost(p, cols[..|cols| - 1], cols[|cols| - 1])
  }

  lemma AffineScoreSnoc(p: Setup, cols: seq<Column>, c: Column)
    ensures AffineScore(p, cols + [c]) == AffineScore(p, cols) + ColumnCost(p, cols, c)
  {
    assert (cols + [c])[..|cols|] == cols;
  }

  /** The scores used in the counterexample below: 5 for equal residues, -2 for
      unequal ones, gap open -2 and gap extend -1. */
  function ExampleSetup(): Setup
  {
    Setup("AAA", "ABBA", (a: char, b: char) => if a == b then 5 else -2, -2, -1)
  }

  /** One step of the walk, unfolded: `c` and `n` are what `Step` gives. */
  lemma WalkUnfold(p: Setup, i: nat, j: nat, v: Cell, c: Column, n: WalkState)
    requires p.ge <= 0 && p.InRange(i, j) && WalkInv(p, i, j, v) && v != Fin(0)
    requires Step(p, i, j, v) == (c, n)
    ensures p.InRange(n.i, n.j) && WalkInv(p, n.i, n.j, n.v)
    ensures Walk(p, i, j, v) == Trace(Walk(p, n.i, n.j, n.v).cols + [c], Walk(p, n.i, n.j, n.v).startI, Walk(p, n.i, n.j, n.v).startJ)
  {
  }

  /** A diagonal step of the walk, unfolded. */
  lemma WalkDiagonal(p: Setup, i: nat, j: nat, v: Cell)
    requires p.ge <= 0 && p.InRange(i, j) && i >= 1 && j >= 1 && WalkInv(p, i, j, v) && v != Fin(0)
    requires YCell(p, i, j) != Fin(MCell(p, i, j)) && XCell(p, i, j) != Fin(MCell(p, i, j))
    ensures MCell(p, i - 1, j - 1) >= 0
    ensures var t := Walk(p, i - 1, j - 1, Fin(MCell(p, i - 1, j - 1)));
      Walk(p, i, j, v) == Trace(t.cols + [Diag(p.x[i - 1], p.y[j - 1])], t.startI, t.startJ)
  {
    StepDiagonal(p, i, j, v);
    WalkUnfoldAt(p, i, j, v, Diag(p.x[i - 1], p.y[j - 1]), i - 1, j - 1, Fin(MCell(p, i - 1, j - 1)));
  }

  /** `WalkUnfold` with the next state given by its parts. */
  lemma WalkUnfoldAt(p: Setup, i: nat, j: nat, v: Cell, c: Column, ni: nat, nj: nat, nv: Cell)
    requires p.ge <= 0 && p.InRange(i, j) && WalkInv(p, i, j, v) && v != Fin(0)
    requires Step(p, i, j, v) == (c, WalkState(ni, nj, nv))
    ensures p.InRange(ni, nj) && WalkInv(p, ni, nj, nv)
    ensures Walk(p, i, j, v) == Trace(Walk(p, ni, nj, nv).cols + [c], Walk(p, ni, nj, nv).startI, Walk(p, ni, nj, nv).startJ)
  {
    WalkUnfold(p, i, j, v, c, WalkState(ni, nj, nv));
  }

  /** A step of the walk that opens a gap in x, unfolded: it returns to M. */
  lemma WalkOpensGapInX(p: Setup, i: nat, j: nat, v: Cell)
    requires p.ge <= 0 && p.InRange(i, j) && i >= 1 && j >= 1 && WalkInv(p, i, j, v) && v != Fin(0)
    requires YCell(p, i, j) == Fin(MCell(p, i, j)) && YCell(p, i, j) != Plus(YCell(p, i, j - 1), p.ge)
    ensures MCell(p, i, j - 1) >= 0
    ensures var t := Walk(p, i, j - 1, Fin(MCell(p, i, j - 1)));
      Walk(p, i, j, v) == Trace(t.cols + [GapInX(p.y[j - 1])], t.startI, t.startJ)
  {
    WalkUnfoldAt(p, i, j, v, GapInX(p.y[j - 1]), i, j - 1, Fin(MCell(p, i, j - 1)));
  }

  /** Away from the gap matrices, a step of the walk is diagonal. */
  lemma StepDiagonal(p: Setup, i: nat, j: nat, v: Cell)
    requires p.ge <= 0 && p.InRange(i, j) && i >= 1 && j >= 1 && WalkInv(p, i, j, v) && v != Fin(0)
    requires YCell(p, i, j) != Fin(MCell(p, i, j)) && XCell(p, i, j) != Fin(MCell(p, i, j))
    ensures Step(p, i, j, v) == (Diag(p.x[i - 1], p.y[j - 1]), WalkState(i - 1, j - 1, Fin(MCell(p, i - 1, j - 1))))
  {
  }

  /** A step of the walk that extends a gap in x, unfolded. */
  lemma WalkExtendsGapInX(p: Setup, i: nat, j: nat, v: Cell)
    requires p.ge <= 0 && p.InRange(i, j) && i >= 1 && j >= 2 && WalkInv(p, i, j, v) && v != Fin(0)
    requires YCell(p, i, j) == Fin(MCell(p, i, j)) && YCell(p, i, j) == Plus(YCell(p, i, j - 1), p.ge)
    ensures WalkInv(p, i, j - 1, YCell(p, i, j - 1))
    ensures var t := Walk(p, i, j - 1, YCell(p, i, j - 1));
      Walk(p, i, j, v) == Trace(t.cols + [GapInX(p.y[j - 1])], t.startI, t.startJ)
  {
    ExtendY(p, i, j);
  }

  /** One interior cell of X, Y and M from its three neighbours and the score
      `sc` of its residue pair. */
  lemma CellStep(p: Setup, i: nat, j: nat, sc: int, diag: int, up: int, left: int, xUp: Cell, yLeft: Cell)
    requires p.InRange(i, j) && i >= 1 && j >= 1 && p.s(p.x[i - 1], p.y[j - 1]) == sc
    requires MCell(p, i - 1, j - 1) == diag && MCell(p, i - 1, j) == up && MCell(p, i, j - 1) == left
    requires XCell(p, i - 1, j) == xUp && YCell(p, i, j - 1) == yLeft
    ensures !xUp.NaN? && !yLeft.NaN?
    ensures XCell(p, i, j) == MaxCell(up + p.go + p.ge, Plus(xUp, p.ge))
    ensures YCell(p, i, j) == MaxCell(left + p.go + p.ge, Plus(yLeft, p.ge))
    ensures MCell(p, i, j) == Max(Max(diag + sc, XCell(p, i, j).v), Max(YCell(p, i, j).v, 0))
  {
  }

  /** Row 0 and column 0: M is 0, X is minus infinity along row 0 and Y down
      column 0. */
  lemma Border(p: Setup, i: nat, j: nat)
    requires p.InRange(i, j) && (i == 0 || j == 0)
    ensures MCell(p, i, j) == 0
    ensures i == 0 && j >= 1 ==> XCell(p, i, j) == NegInf
    ensures j == 0 && i >= 1 ==> YCell(p, i, j) == NegInf
  {
  }

  /** The example: "AAA" against "ABBA" with a match scoring 5, the mismatch of
      A with B scoring -2, gap opening -2 and gap extension -1. */
  ghost predicate ExampleShape(p: Setup)
  {
    && p.x == "AAA" && p.y == "ABBA" && p.go == -2 && p.ge == -1
    && p.s('A', 'A') == 5 && p.s('A', 'B') == -2
  }

  lemma ExampleHasShape()
    ensures ExampleShape(ExampleSetup())
  {
  }

  /** Row i of X, Y and M for the example, from row i - 1 by the recurrences. */
  lemma ExampleRow1(p: Setup)
    requires ExampleShape(p)
    ensures XCell(p, 1, 1) == Fin(-3) && YCell(p, 1, 1) == Fin(-3) && MCell(p, 1, 1) == 5 && XCell(p, 1, 2) == Fin(-3) && YCell(p, 1, 2) == Fin(2) && MCell(p, 1, 2) == 2 && XCell(p, 1, 3) == Fin(-3) && YCell(p, 1, 3) == Fin(1) && MCell(p, 1, 3) == 1 && XCell(p, 1, 4) == Fin(-3) && YCell(p, 1, 4) == Fin(0) && MCell(p, 1, 4) == 5
  {
    Border(p, 0, 1);
    Border(p, 0, 2);
    Border(p, 0, 3);
    Border(p, 0, 4);
    Border(p, 1, 0);
    CellStep(p, 1, 1, 5, 0, 0, 0, NegInf, NegInf);
    CellStep(p, 1, 2, -2, 0, 0, 5, NegInf, Fin(-3));
    CellStep(p, 1, 3, -2, 0, 0, 2, NegInf, Fin(2));
    CellStep(p, 1, 4, 5, 0, 0, 1, NegInf, Fin(1));
  }

  lemma ExampleRow2(p: Setup)
    requires ExampleShape(p)
    requires XCell(p, 1, 1) == Fin(-3) && MCell(p, 1, 1) == 5 && XCell(p, 1, 2) == Fin(-3) && MCell(p, 1, 2) == 2 && XCell(p, 1, 3) == Fin(-3) && MCell(p, 1, 3) == 1 && XCell(p, 1, 4) == Fin(-3) && MCell(p, 1, 4) == 5
    ensures XCell(p, 2, 1) == Fin(2) && YCell(p, 2, 1) == Fin(-3) && MCell(p, 2, 1) == 5 && XCell(p, 2, 2) == Fin(-1) && YCell(p, 2, 2) == Fin(2) && MCell(p, 2, 2) == 3 && XCell(p, 2, 3) == Fin(-2) && YCell(p, 2, 3) == Fin(1) && MCell(p, 2, 3) == 1 && XCell(p, 2, 4) == Fin(2) && YCell(p, 2, 4) == Fin(0) && MCell(p, 2, 4) == 6
  {
    Border(p, 2, 0);
    CellStep(p, 2, 1, 5, 0, 5, 0, Fin(-3), NegInf);
    CellStep(p, 2, 2, -2, 5, 2, 5, Fin(-3), Fin(-3));
    CellStep(p, 2, 3, -2, 2, 1, 3, Fin(-3), Fin(2));
    CellStep(p, 2, 4, 5, 1, 5, 1, Fin(-3), Fin(1));
  }

  lemma ExampleRow3(p: Setup)
    requires ExampleShape(p)
    requires XCell(p, 2, 1) == Fin(2) && MCell(p, 2, 1) == 5 && XCell(p, 2, 2) == Fin(-1) && MCell(p, 2, 2) == 3 && XCell(p, 2, 3) == Fin(-2) && MCell(p, 2, 3) == 1 && XCell(p, 2, 4) == Fin(2) && MCell(p, 2, 4) == 6
    ensures XCell(p, 3, 1) == Fin(2) && YCell(p, 3, 1) == Fin(-3) && MCell(p, 3, 1) == 5 && XCell(p, 3, 2) == Fin(0) && YCell(p, 3, 2) == Fin(2) && MCell(p, 3, 2) == 3 && XCell(p, 3, 3) == Fin(-2) && YCell(p, 3, 3) == Fin(1) && MCell(p, 3, 3) == 1 && XCell(p, 3, 4) == Fin(3) && YCell(p, 3, 4) == Fin(0) && MCell(p, 3, 4) == 6
  {
    Border(p, 3, 0);
    CellStep(p, 3, 1, 5, 0, 5, 0, Fin(2), NegInf);
    CellStep(p, 3, 2, -2, 5, 3, 5, Fin(-1), Fin(-3));
    CellStep(p, 3, 3, -2, 3, 1, 3, Fin(-2), Fin(2));
    CellStep(p, 3, 4, 5, 1, 6, 1, Fin(2), Fin(1));
  }

  /** The cells of M for the example, filled in by the recurrences. */
  lemma ExampleMatrix(p: Setup)
    requires ExampleShape(p)
    ensures XCell(p, 2, 2) == Fin(-1) && YCell(p, 2, 2) == Fin(2)
      && YCell(p, 2, 3) == Fin(1) && YCell(p, 3, 4) == Fin(0)
      && XCell(p, 1, 1) == Fin(-3) && YCell(p, 1, 1) == Fin(-3) && XCell(p, 3, 4) == Fin(3)
      && MCell(p, 1, 1) == 5 && MCell(p, 2, 1) == 5 && MCell(p, 3, 1) == 5 && MCell(p, 1, 2) == 2 && MCell(p, 2, 2) == 3 && MCell(p, 3, 2) == 3 && MCell(p, 1, 3) == 1 && MCell(p, 2, 3) == 1 && MCell(p, 3, 3) == 1 && MCell(p, 1, 4) == 5 && MCell(p, 2, 4) == 6 && MCell(p, 3, 4) == 6
  {
    ExampleRow1(p);
    ExampleRow2(p);
    ExampleRow3(p);
  }

  /** The maximum of M for the example is 6, and it is reached at exactly two
      cells, (2, 4) and (3, 4), in that row-major order. */
  lemma ExampleMaximum(p: Setup)
    requires ExampleShape(p)
    ensures MCell(p, 2, 4) == 6 && MCell(p, 3, 4) == 6
    ensures forall i, j :: p.InRange(i, j) ==> MCell(p, i, j) <= 6
    ensures MaxCells(p, 6, [(2, 4), (3, 4)])
  {
    ExampleMatrix(p);
    forall i, j | p.InRange(i, j)
      ensures MCell(p, i, j) <= 6
      ensures MCell(p, i, j) == 6 ==> (i, j) in [(2, 4), (3, 4)]
    {
      if i == 0 || j == 0 {
      } else if i == 1 {
        assert j == 1 || j == 2 || j == 3 || j == 4;
      } else if i == 2 {
        assert j == 1 || j == 2 || j == 3 || j == 4;
      } else {
        assert i == 3 && (j == 1 || j == 2 || j == 3 || j == 4);
      }
    }
  }

  /** Whatever maximum and list of maximal cells M yields for the example (the
      list is never empty), they are 6 and [(2, 4), (3, 4)]: the source traces
      back from both cells. */
  lemma ExampleMaxLocList(p: Setup, best: int, locs: seq<(nat, nat)>)
    requires ExampleShape(p) && MaxCells(p, best, locs) && locs != []
    ensures best == 6 && locs == [(2, 4), (3, 4)]
  {
    ExampleMaximum(p);
    MaxCellsPair(p, best, locs, 6, (2, 4), (3, 4));
  }

  /** The walk of the source from cell (3, 4) of the example, one step at a time. */
  lemma ExampleWalkFrom11(p: Setup)
    requires ExampleShape(p)
    requires MCell(p, 1, 1) == 5 && XCell(p, 1, 1) == Fin(-3) && YCell(p, 1, 1) == Fin(-3)
    ensures Walk(p, 1, 1, Fin(5)).cols == [Diag('A', 'A')]
  {
    WalkDiagonal(p, 1, 1, Fin(5));
    assert Walk(p, 0, 0, Fin(0)) == Trace([], 0, 0);
    assert [] + [Diag('A', 'A')] == [Diag('A', 'A')];
  }

  lemma ExampleWalkFrom22(p: Setup)
    requires ExampleShape(p)
    requires MCell(p, 1, 1) == 5 && XCell(p, 1, 1) == Fin(-3) && YCell(p, 1, 1) == Fin(-3)
    requires MCell(p, 2, 2) == 3 && XCell(p, 2, 2) == Fin(-1) && YCell(p, 2, 2) == Fin(2)
    ensures Walk(p, 2, 2, Fin(2)).cols == [Diag('A', 'A'), Diag('A', 'B')]
  {
    ExampleWalkFrom11(p);
    WalkDiagonal(p, 2, 2, Fin(2));
    assert [Diag('A', 'A')] + [Diag('A', 'B')] == [Diag('A', 'A'), Diag('A', 'B')];
  }

  lemma ExampleWalkFrom23(p: Setup)
    requires ExampleShape(p)
    requires MCell(p, 1, 1) == 5 && XCell(p, 1, 1) == Fin(-3) && YCell(p, 1, 1) == Fin(-3)
    requires MCell(p, 2, 2) == 3 && XCell(p, 2, 2) == Fin(-1) && YCell(p, 2, 2) == Fin(2)
    requires MCell(p, 2, 3) == 1 && YCell(p, 2, 3) == Fin(1)
    ensures Walk(p, 2, 3, Fin(1)).cols == [Diag('A', 'A'), Diag('A', 'B'), GapInX('B')]
  {
    ExampleWalkFrom22(p);
    WalkExtendsGapInX(p, 2, 3, Fin(1));
    assert [Diag('A', 'A'), Diag('A', 'B')] + [GapInX('B')] == [Diag('A', 'A'), Diag('A', 'B'), GapInX('B')];
  }

  lemma ExampleWalk(p: Setup)
    requires ExampleShape(p)
    ensures MCell(p, 3, 4) == 6
    ensures Walk(p, 3, 4, Fin(6)).cols == [Diag('A', 'A'), Diag('A', 'B'), GapInX('B'), Diag('A', 'A')]
  {
    assert && MCell(p, 1, 1) == 5 && XCell(p, 1, 1) == Fin(-3) && YCell(p, 1, 1) == Fin(-3)
           && MCell(p, 2, 2) == 3 && XCell(p, 2, 2) == Fin(-1) && YCell(p, 2, 2) == Fin(2)
           && MCell(p, 2, 3) == 1 && YCell(p, 2, 3) == Fin(1)
           && MCell(p, 3, 4) == 6 && XCell(p, 3, 4) == Fin(3) && YCell(p, 3, 4) == Fin(0)
    by {
      ExampleMatrix(p);
    }
    ExampleWalkFrom23(p);
    WalkDiagonal(p, 3, 4, Fin(6));
    SnocFour(Diag('A', 'A'), Diag('A', 'B'), GapInX('B'), Diag('A', 'A'));
  }

  /** The walk of the source from the other maximal cell, (2, 4). */
  lemma ExampleWalkFrom12(p: Setup)
    requires ExampleShape(p)
    requires MCell(p, 1, 1) == 5 && XCell(p, 1, 1) == Fin(-3) && YCell(p, 1, 1) == Fin(-3)
    requires MCell(p, 1, 2) == 2 && YCell(p, 1, 2) == Fin(2)
    ensures Walk(p, 1, 2, Fin(2)).cols == [Diag('A', 'A'), GapInX('B')]
  {
    ExampleWalkFrom11(p);
    WalkOpensGapInX(p, 1, 2, Fin(2));
    assert [Diag('A', 'A')] + [GapInX('B')] == [Diag('A', 'A'), GapInX('B')];
  }

  lemma ExampleWalkFrom13(p: Setup)
    requires ExampleShape(p)
    requires MCell(p, 1, 1) == 5 && XCell(p, 1, 1) == Fin(-3) && YCell(p, 1, 1) == Fin(-3)
    requires MCell(p, 1, 2) == 2 && YCell(p, 1, 2) == Fin(2)
    requires MCell(p, 1, 3) == 1 && YCell(p, 1, 3) == Fin(1)
    ensures Walk(p, 1, 3, Fin(1)).cols == [Diag('A', 'A'), GapInX('B'), GapInX('B')]
  {
    ExampleWalkFrom12(p);
    WalkExtendsGapInX(p, 1, 3, Fin(1));
    assert [Diag('A', 'A'), GapInX('B')] + [GapInX('B')] == [Diag('A', 'A'), GapInX('B'), GapInX('B')];
  }

  lemma ExampleWalkFrom24(p: Setup)
    requires ExampleShape(p)
    ensures MCell(p, 2, 4) == 6
    ensures Walk(p, 2, 4, Fin(6)).cols == [Diag('A', 'A'), GapInX('B'), GapInX('B'), Diag('A', 'A')]
  {
    assert && MCell(p, 1, 1) == 5 && XCell(p, 1, 1) == Fin(-3) && YCell(p, 1, 1) == Fin(-3)
           && MCell(p, 1, 2) == 2 && YCell(p, 1, 2) == Fin(2)
           && MCell(p, 1, 3) == 1 && YCell(p, 1, 3) == Fin(1)
           && MCell(p, 2, 4) == 6 && XCell(p, 2, 4) == Fin(2) && YCell(p, 2, 4) == Fin(0)
    by {
      ExampleRow1(p);
      ExampleRow2(p);
    }
    ExampleWalkFrom13(p);
    WalkDiagonal(p, 2, 4, Fin(6));
    SnocFour(Diag('A', 'A'), GapInX('B'), GapInX('B'), Diag('A', 'A'));
  }

  lemma SnocFour<T>(a: T, b: T, c: T, d: T)
    ensures [a, b, c] + [d] == [a, b, c, d]
  {
  }

  /** The traceback as written does not always reproduce the score it reports:
      for x = "AAA", y = "ABBA", the maximum of M is 6, at the cells (2, 4) and
      (3, 4). The walk from (2, 4) emits A/A, _/B, _/B, A/A, which scores 6; the
      walk from (3, 4) leaves the gap run it followed (at cell (2, 2), where Y is
      2 and M is 3) and emits A/A, A/B, _/B, A/A, which scores 5. */
  lemma WalkMisreportsScore(p: Setup)
    requires ExampleShape(p)
    ensures MCell(p, 2, 4) == 6 && MCell(p, 3, 4) == 6
    ensures forall i, j :: p.InRange(i, j) ==> MCell(p, i, j) <= 6
    ensures MaxCells(p, 6, [(2, 4), (3, 4)])
    ensures AffineScore(p, Walk(p, 2, 4, Fin(6)).cols) == 6
    ensures AffineScore(p, Walk(p, 3, 4, Fin(6)).cols) == 5
  {
    ExampleMaximum(p);
    ExampleWalkFrom24(p);
    ExampleFirstColumnsScore(p);
    ExampleWalk(p);
    ExampleColumnsScore(p);
  }

  /** The columns A/A, _/B, _/B, A/A score 5 + (-2 - 1) + (-1) + 5 = 6. */
  lemma ExampleFirstColumnsScore(p: Setup)
    requires ExampleShape(p)
    ensures AffineScore(p, [Diag('A', 'A'), GapInX('B'), GapInX('B'), Diag('A', 'A')]) == 6
  {
    var c1 := [Diag('A', 'A')];
    var c2 := c1 + [GapInX('B')];
    var c3 := c2 + [GapInX('B')];
    var c4 := c3 + [Diag('A', 'A')];
    AffineScoreSnoc(p, [], Diag('A', 'A'));
    assert [] + [Diag('A', 'A')] == c1;
    assert AffineScore(p, c1) == 5;
    AffineScoreSnoc(p, c1, GapInX('B'));
    assert AffineScore(p, c2) == 2;
    AffineScoreSnoc(p, c2, GapInX('B'));
    assert AffineScore(p, c3) == 1;
    AffineScoreSnoc(p, c3, Diag('A', 'A'));
    assert c4 == [Diag('A', 'A'), GapInX('B'), GapInX('B'), Diag('A', 'A')];
  }

  /** The columns A/A, A/B, _/B, A/A score 5 + (-2) + (-2 - 1) + 5 = 5. */
  lemma ExampleColumnsScore(p: Setup)
    requires ExampleShape(p)
    ensures AffineScore(p, [Diag('A', 'A'), Diag('A', 'B'), GapInX('B'), Diag('A', 'A')]) == 5
  {
    var c1 := [Diag('A', 'A')];
    var c2 := c1 + [Diag('A', 'B')];
    var c3 := c2 + [GapInX('B')];
    var c4 := c3 + [Diag('A', 'A')];
    AffineScoreSnoc(p, [], Diag('A', 'A'));
    assert [] + [Diag('A', 'A')] == c1;
    assert AffineScore(p, c1) == 5;
    AffineScoreSnoc(p, c1, Diag('A', 'B'));
    assert AffineScore(p, c2) == 3;
    AffineScoreSnoc(p, c2, GapInX('B'));
    assert AffineScore(p, c3) == 0;
    AffineScoreSnoc(p, c3, Diag('A', 'A'));
    assert c4 == [Diag('A', 'A'), Diag('A', 'B'), GapInX('B'), Diag('A', 'A')];
  }

  // ------------------------------------------- the state-aware traceback

  /** Which of the three matrices a state-aware walk is following. */
  datatype Matrix = InM | InX | InY

  /** The traceback the recurrences call for: it remembers which matrix it is
      following, and stays in a gap matrix while the gap was extended there. From
      M it enters Y or X when M equals them (same priority as the source) and
      otherwise steps diagonally; it stops in M at a cell that is 0. */
  ghost function AwareWalk(p: Setup, k: Matrix, i: nat, j: nat): (t: Trace)
    requires p.InRange(i, j) && (!k.InM? ==> i >= 1 && j >= 1)
    decreases i + j, if k.InM? then 1 else 0
  {
    match k
    case InM =>
      var m := MCell(p, i, j);
      if m == 0 then Trace([], i, j)
      else if YCell(p, i, j) == Fin(m) then AwareWalk(p, InY, i, j)
      else if XCell(p, i, j) == Fin(m) then AwareWalk(p, InX, i, j)
      else
        var t := AwareWalk(p, InM, i - 1, j - 1);
        Trace(t.cols + [Diag(p.x[i - 1], p.y[j - 1])], t.startI, t.startJ)
    case InY =>
      var t := if YCell(p, i, j) == Plus(YCell(p, i, j - 1), p.ge) then AwareWalk(p, InY, i, j - 1)
               else AwareWalk(p, InM, i, j - 1);
      Trace(t.cols + [GapInX(p.y[j - 1])], t.startI, t.startJ)
    case InX =>
      var t := if XCell(p, i, j) == Plus(XCell(p, i - 1, j), p.ge) then AwareWalk(p, InX, i - 1, j)
               else AwareWalk(p, InM, i - 1, j);
      Trace(t.cols + [GapInY(p.x[i - 1])], t.startI, t.startJ)
  }

  function Last<T>(s: seq<T>): T
    requires s != []
  {
    s[|s| - 1]
  }

  /** The state-aware walk replays its score from M: the affine score of its
      columns is M[i][j]. When its last column is a gap, the walk went through X
      (for a gap in y) or Y (for a gap in x) at its first cell. */
  lemma {:induction false} ReplayM(p: Setup, i: nat, j: nat)
    requires p.go <= 0 && p.InRange(i, j)
    ensures var t := AwareWalk(p, InM, i, j);
      && AffineScore(p, t.cols) == MCell(p, i, j)
      && (t.cols != [] && Last(t.cols).GapInY? ==> i >= 1 && j >= 1 && XCell(p, i, j) == Fin(MCell(p, i, j)))
      && (t.cols != [] && Last(t.cols).GapInX? ==> i >= 1 && j >= 1 && YCell(p, i, j) == Fin(MCell(p, i, j)))
    decreases i + j, 1, 0
  {
    var m := MCell(p, i, j);
    if m == 0 {
    } else if YCell(p, i, j) == Fin(m) {
      ReplayY(p, i, j);
    } else if XCell(p, i, j) == Fin(m) {
      ReplayX(p, i, j);
    } else {
      var t := AwareWalk(p, InM, i - 1, j - 1);
      assert AwareWalk(p, InM, i, j) == Trace(t.cols + [Diag(p.x[i - 1], p.y[j - 1])], t.startI, t.startJ);
      ReplayM(p, i - 1, j - 1);
      AffineScoreSnoc(p, t.cols, Diag(p.x[i - 1], p.y[j - 1]));
    }
  }

  /** Y[i][j] extends the gap of Y[i][j-1]: then that cell is in the interior. */
  lemma YExtends(p: Setup, i: nat, j: nat)
    requires p.InRange(i, j) && i >= 1 && j >= 1
    requires YCell(p, i, j) == Plus(YCell(p, i, j - 1), p.ge)
    ensures j >= 2 && YCell(p, i, j).v == YCell(p, i, j - 1).v + p.ge
  {
  }

  /** Y[i][j] opens a gap after M[i][j-1]: with go <= 0, Y[i][j-1] cannot equal
      M[i][j-1] (the extension would score at least as much and is tested first). */
  lemma YOpens(p: Setup, i: nat, j: nat)
    requires p.go <= 0 && p.InRange(i, j) && i >= 1 && j >= 1
    requires YCell(p, i, j) != Plus(YCell(p, i, j - 1), p.ge)
    ensures YCell(p, i, j).v == MCell(p, i, j - 1) + p.go + p.ge
    ensures j >= 2 ==> YCell(p, i, j - 1) != Fin(MCell(p, i, j - 1))
  {
  }

  lemma XExtends(p: Setup, i: nat, j: nat)
    requires p.InRange(i, j) && i >= 1 && j >= 1
    requires XCell(p, i, j) == Plus(XCell(p, i - 1, j), p.ge)
    ensures i >= 2 && XCell(p, i, j).v == XCell(p, i - 1, j).v + p.ge
  {
  }

  lemma XOpens(p: Setup, i: nat, j: nat)
    requires p.go <= 0 && p.InRange(i, j) && i >= 1 && j >= 1
    requires XCell(p, i, j) != Plus(XCell(p, i - 1, j), p.ge)
    ensures XCell(p, i, j).v == MCell(p, i - 1, j) + p.go + p.ge
    ensures i >= 2 ==> XCell(p, i - 1, j) != Fin(MCell(p, i - 1, j))
  {
  }

  /** A walk in Y replays Y[i][j] and ends with a gap in x. */
  lemma {:induction false} ReplayY(p: Setup, i: nat, j: nat)
    requires p.go <= 0 && p.InRange(i, j) && i >= 1 && j >= 1
    ensures var t := AwareWalk(p, InY, i, j);
      && AffineScore(p, t.cols) == YCell(p, i, j).v
      && t.cols != [] && Last(t.cols).GapInX?
    decreases i + j, 0, 1
  {
    if YCell(p, i, j) == Plus(YCell(p, i, j - 1), p.ge) {
      ReplayYExtend(p, i, j);
    } else {
      ReplayYOpen(p, i, j);
    }
  }

  lemma {:induction false} ReplayYExtend(p: Setup, i: nat, j: nat)
    requires p.go <= 0 && p.InRange(i, j) && i >= 1 && j >= 1
    requires YCell(p, i, j) == Plus(YCell(p, i, j - 1), p.ge)
    ensures var t := AwareWalk(p, InY, i, j);
      && AffineScore(p, t.cols) == YCell(p, i, j).v
      && t.cols != [] && Last(t.cols).GapInX?
    decreases i + j, 0, 0
  {
    YExtends(p, i, j);
    var c := GapInX(p.y[j - 1]);
    var t := AwareWalk(p, InY, i, j - 1);
    assert AwareWalk(p, InY, i, j) == Trace(t.cols + [c], t.startI, t.startJ);
    ReplayY(p, i, j - 1);
    assert ColumnCost(p, t.cols, c) == p.ge;
    AffineScoreSnoc(p, t.cols, c);
  }

  lemma {:induction false} ReplayYOpen(p: Setup, i: nat, j: nat)
    requires p.go <= 0 && p.InRange(i, j) && i >= 1 && j >= 1
    requires YCell(p, i, j) != Plus(YCell(p, i, j - 1), p.ge)
    ensures var t := AwareWalk(p, InY, i, j);
      && AffineScore(p, t.cols) == YCell(p, i, j).v
      && t.cols != [] && Last(t.cols).GapInX?
    decreases i + j, 0, 0
  {
    YOpens(p, i, j);
    var c := GapInX(p.y[j - 1]);
    var t := AwareWalk(p, InM, i, j - 1);
    assert AwareWalk(p, InY, i, j).cols == t.cols + [c];
    ReplayM(p, i, j - 1);
    OpensGapInX(p, t.cols, c);
    AffineScoreSnoc(p, t.cols, c);
  }

  /** A gap column that does not follow a gap of its own kind opens a gap. */
  lemma OpensGapInX(p: Setup, cols: seq<Column>, c: Column)
    requires c.GapInX? && (cols == [] || !Last(cols).GapInX?)
    ensures ColumnCost(p, cols, c) == p.go + p.ge
  {
  }

  lemma OpensGapInY(p: Setup, cols: seq<Column>, c: Column)
    requires c.GapInY? && (cols == [] || !Last(cols).GapInY?)
    ensures ColumnCost(p, cols, c) == p.go + p.ge
  {
  }

  /** A walk in X replays X[i][j] and ends with a gap in y. */
  lemma {:induction false} ReplayX(p: Setup, i: nat, j: nat)
    requires p.go <= 0 && p.InRange(i, j) && i >= 1 && j >= 1
    ensures var t := AwareWalk(p, InX, i, j);
      && AffineScore(p, t.cols) == XCell(p, i, j).v
      && t.cols != [] && Last(t.cols).GapInY?
    decreases i + j, 0, 1
  {
    if XCell(p, i, j) == Plus(XCell(p, i - 1, j), p.ge) {
      ReplayXExtend(p, i, j);
    } else {
      ReplayXOpen(p, i, j);
    }
  }

  lemma {:induction false} ReplayXExtend(p: Setup, i: nat, j: nat)
    requires p.go <= 0 && p.InRange(i, j) && i >= 1 && j >= 1
    requires XCell(p, i, j) == Plus(XCell(p, i - 1, j), p.ge)
    ensures var t := AwareWalk(p, InX, i, j);
      && AffineScore(p, t.cols) == XCell(p, i, j).v
      && t.cols != [] && Last(t.cols).GapInY?
    decreases i + j, 0, 0
  {
    XExtends(p, i, j);
    var c := GapInY(p.x[i - 1]);
    var t := AwareWalk(p, InX, i - 1, j);
    assert AwareWalk(p, InX, i, j) == Trace(t.cols + [c], t.startI, t.startJ);
    ReplayX(p, i - 1, j);
    assert ColumnCost(p, t.cols, c) == p.ge;
    AffineScoreSnoc(p, t.cols, c);
  }

  lemma {:induction false} ReplayXOpen(p: Setup, i: nat, j: nat)
    requires p.go <= 0 && p.InRange(i, j) && i >= 1 && j >= 1
    requires XCell(p, i, j) != Plus(XCell(p, i - 1, j), p.ge)
    ensures var t := AwareWalk(p, InX, i, j);
      && AffineScore(p, t.cols) == XCell(p, i, j).v
      && t.cols != [] && Last(t.cols).GapInY?
    decreases i + j, 0, 0
  {
    XOpens(p, i, j);
    var c := GapInY(p.x[i - 1]);
    var t := AwareWalk(p, InM, i - 1, j);
    assert AwareWalk(p, InX, i, j).cols == t.cols + [c];
    ReplayM(p, i - 1, j);
    OpensGapInY(p, t.cols, c);
    AffineScoreSnoc(p, t.cols, c);
  }

  /** The corrected traceback from any cell reproduces that cell's score; in
      particular, from a maximal cell it reproduces the reported score. */
  lemma AwareTracebackScore(p: Setup, i: nat, j: nat)
    requires p.go <= 0 && p.InRange(i, j)
    ensures AffineScore(p, AwareWalk(p, InM, i, j).cols) == MCell(p, i, j)
  {
    ReplayM(p, i, j);
  }
}
