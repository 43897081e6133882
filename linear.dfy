/** The linear-gap `LocalAlignment` class: one matrix V filled in place in
    row-major order, the maximum of V, and the traceback from the first maximal
    cell. Every method is proved to compute what module LinearSpec defines. */
module Linear {
  import opened Wrappers
  import opened Text
  import opened Grid
  import opened LinearSpec

  class LocalAlignment {
    const x: string
    const y: string
    const s: (char, char) -> int
    /** (|x| + 1) x (|y| + 1) */
    const V: array2<int>

    var vMax: int
    var xscript: string
    var alignment: string

    ghost function Params(): LSetup
    {
      LSetup(x, y, s)
    }

    ghost predicate Shaped()
    {
      V.Length0 == |x| + 1 && V.Length1 == |y| + 1
    }

    /** Every cell of V up to (i, j) in row-major order, and row 0 and column 0
        throughout, hold what the recurrence defines. */
    ghost predicate FilledBefore(i: nat, j: nat)
      requires Shaped()
      reads V
    {
      forall a: nat, b: nat | a <= |x| && b <= |y| && (a == 0 || b == 0 || Before(a, b, i, j)) ::
        V[a, b] == VCell(Params(), a, b)
    }

    ghost predicate Filled()
      requires Shaped()
      reads V
    {
      forall a: nat, b: nat | a <= |x| && b <= |y| :: V[a, b] == VCell(Params(), a, b)
    }

    /** Allocates V filled with zeros. */
    constructor (seqX: string, seqY: string, scoreMatrix: (char, char) -> int)
      ensures x == seqX && y == seqY && s == scoreMatrix
      ensures Shaped() && fresh(V)
      ensures forall a, b :: 0 <= a < V.Length0 && 0 <= b < V.Length1 ==> V[a, b] == 0
    {
      x, y, s := seqX, seqY, scoreMatrix;
      V := new int[|seqX| + 1, |seqY| + 1]((a, b) => 0);
    }

    /** `fill_matrix`: fills V row by row, then takes `int()` of the array of
        all maximal values, which fails when the maximum is reached in more
        than one cell. On success the maximum is stored in `vMax`. */
    method FillMatrix() returns (r: Result<int, FillError>)
      requires Shaped()
      requires forall a, b :: 0 <= a < V.Length0 && 0 <= b < V.Length1 && (a == 0 || b == 0) ==> V[a, b] == 0
      modifies V, this`vMax
      ensures Filled()
      ensures exists best :: IsMax(Params(), best) && r == VMax(Params(), best)
      ensures r.Success? ==> vMax == r.value
      ensures r.Failure? ==> vMax == old(vMax)
    {
      FillV();
      var best := MaxOfV();
      var locs := CellsEqualTo(best);
      if |locs| == 1 {
        NotTied(best, locs);
        vMax := best;
        r := Success(best);
      } else {
        IsTied(best, locs);
        r := Failure(SeveralMaxima);
      }
    }

    /** The nested loops of the fill, row by row. */
    method FillV()
      requires Shaped()
      requires forall a, b :: 0 <= a < V.Length0 && 0 <= b < V.Length1 && (a == 0 || b == 0) ==> V[a, b] == 0
      modifies V
      ensures Filled()
    {
      for i := 1 to |x| + 1
        invariant FilledBefore(i, 0)
      {
        for j := 1 to |y| + 1
          invariant FilledBefore(i, j)
        {
          FillCell(i, j);
        }
        assert FilledBefore(i + 1, 0);
      }
    }

    /** The body of the fill loop at cell (i, j): the largest of the diagonal,
        vertical and horizontal moves and 0. */
    method FillCell(i: nat, j: nat)
      requires Shaped() && 1 <= i <= |x| && 1 <= j <= |y| && FilledBefore(i, j)
      modifies V
      ensures FilledBefore(i, j + 1)
    {
      var diag := V[i - 1, j - 1] + s(x[i - 1], y[j - 1]);
      var vert := V[i - 1, j] + s(x[i - 1], '-');
      var horz := V[i, j - 1] + s('-', y[j - 1]);
      assert diag == DiagMove(Params(), i, j) && vert == VertMove(Params(), i, j) && horz == HorzMove(Params(), i, j);
      label Pre:
      V[i, j] := Max(Max(diag, vert), Max(horz, 0));
      forall a: nat, b: nat | a <= |x| && b <= |y| && (a == 0 || b == 0 || Before(a, b, i, j + 1))
        ensures V[a, b] == VCell(Params(), a, b)
      {
        if a != i || b != j {
          assert old@Pre(V[a, b] == VCell(Params(), a, b));
        }
      }
    }

    /** With the maximal cells listed each once, one entry means the maximum
        is not tied... */
    lemma NotTied(best: int, locs: seq<(nat, nat)>)
      requires forall a: nat, b: nat :: a <= |x| && b <= |y| && VCell(Params(), a, b) == best ==> (a, b) in locs
      requires |locs| == 1
      ensures !Tied(Params(), best)
    {
    }

    /** ...and zero or several entries of a maximum that is reached means it
        is. */
    lemma IsTied(best: int, locs: seq<(nat, nat)>)
      requires IsMax(Params(), best)
      requires forall k :: 0 <= k < |locs| ==> Params().InRange(locs[k].0, locs[k].1) && VCell(Params(), locs[k].0, locs[k].1) == best
      requires forall a: nat, b: nat :: a <= |x| && b <= |y| && VCell(Params(), a, b) == best ==> (a, b) in locs
      requires forall k, l :: 0 <= k < l < |locs| ==> RowMajorBefore(locs[k], locs[l])
      requires |locs| != 1
      ensures Tied(Params(), best)
    {
      var a: nat, b: nat :| a <= |x| && b <= |y| && VCell(Params(), a, b) == best;
      assert (a, b) in locs;
      assert RowMajorBefore(locs[0], locs[1]);
    }

    /** `V.max()`. */
    method MaxOfV() returns (best: int)
      requires Shaped() && Filled()
      ensures IsMax(Params(), best)
    {
      best := V[0, 0];
      ghost var at: (nat, nat) := (0, 0);
      for i := 0 to |x| + 1
        invariant at.0 <= |x| && at.1 <= |y| && V[at.0, at.1] == best
        invariant forall a, b :: 0 <= a < i && 0 <= b <= |y| ==> V[a, b] <= best
      {
        for j := 0 to |y| + 1
          invariant at.0 <= |x| && at.1 <= |y| && V[at.0, at.1] == best
          invariant forall a, b :: 0 <= a < i && 0 <= b <= |y| ==> V[a, b] <= best
          invariant forall b :: 0 <= b < j ==> V[i, b] <= best
        {
          if V[i, j] > best {
            best, at := V[i, j], (i, j);
          }
        }
      }
      assert VCell(Params(), at.0, at.1) == best;
    }

    /** `np.where(V == v)`: the cells of V equal to v, in row-major order. */
    method CellsEqualTo(v: int) returns (locs: seq<(nat, nat)>)
      requires Shaped() && Filled()
      ensures forall k :: 0 <= k < |locs| ==> Params().InRange(locs[k].0, locs[k].1) && VCell(Params(), locs[k].0, locs[k].1) == v
      ensures forall a: nat, b: nat :: a <= |x| && b <= |y| && VCell(Params(), a, b) == v ==> (a, b) in locs
      ensures forall k, l :: 0 <= k < l < |locs| ==> RowMajorBefore(locs[k], locs[l])
    {
      locs := [];
      for i := 0 to |x| + 1
        invariant forall k :: 0 <= k < |locs| ==> locs[k].0 < i && locs[k].1 <= |y| && V[locs[k].0, locs[k].1] == v
        invariant forall a, b :: 0 <= a < i && 0 <= b <= |y| && V[a, b] == v ==> (a, b) in locs
        invariant forall k, l :: 0 <= k < l < |locs| ==> RowMajorBefore(locs[k], locs[l])
      {
        locs := RowEqualTo(v, i, locs);
      }
    }

    /** One row of `np.where(V == v)`: the cells of row i equal to v, appended
        in column order to those of the rows above. */
    method RowEqualTo(v: int, i: nat, locs0: seq<(nat, nat)>) returns (locs: seq<(nat, nat)>)
      requires Shaped() && i <= |x|
      requires forall k :: 0 <= k < |locs0| ==> locs0[k].0 < i && locs0[k].1 <= |y| && V[locs0[k].0, locs0[k].1] == v
      requires forall a, b :: 0 <= a < i && 0 <= b <= |y| && V[a, b] == v ==> (a, b) in locs0
      requires forall k, l :: 0 <= k < l < |locs0| ==> RowMajorBefore(locs0[k], locs0[l])
      ensures forall k :: 0 <= k < |locs| ==> locs[k].0 < i + 1 && locs[k].1 <= |y| && V[locs[k].0, locs[k].1] == v
      ensures forall a, b :: 0 <= a < i + 1 && 0 <= b <= |y| && V[a, b] == v ==> (a, b) in locs
      ensures forall k, l :: 0 <= k < l < |locs| ==> RowMajorBefore(locs[k], locs[l])
    {
      locs := locs0;
      for j := 0 to |y| + 1
        invariant forall k :: 0 <= k < |locs| ==> Before(locs[k].0, locs[k].1, i, j) && locs[k].0 <= i && locs[k].1 <= |y| && V[locs[k].0, locs[k].1] == v
        invariant forall a, b :: 0 <= a && 0 <= b <= |y| && Before(a, b, i, j) && V[a, b] == v ==> (a, b) in locs
        invariant forall k, l :: 0 <= k < l < |locs| ==> RowMajorBefore(locs[k], locs[l])
      {
        if V[i, j] == v {
          locs := locs + [(i, j)];
        }
      }
    }

    /** `np.unravel_index(np.argmax(V))`: the first maximal cell in row-major
        order. */
    method ArgMax() returns (i: nat, j: nat)
      requires Shaped() && Filled()
      ensures FirstMax(Params(), i, j)
    {
      i, j := 0, 0;
      for a := 0 to |x| + 1
        invariant i <= |x| && j <= |y| && (Before(i, j, a, 0) || (a == 0 && i == 0 && j == 0))
        invariant forall c, d :: 0 <= c < a && 0 <= d <= |y| ==> V[c, d] <= V[i, j]
        invariant forall c, d :: 0 <= c < a && 0 <= d <= |y| && Before(c, d, i, j) ==> V[c, d] < V[i, j]
      {
        for b := 0 to |y| + 1
          invariant i <= |x| && j <= |y| && (Before(i, j, a, b) || (a == 0 && b == 0 && i == 0 && j == 0))
          invariant forall c, d :: 0 <= c && 0 <= d <= |y| && Before(c, d, a, b) ==> V[c, d] <= V[i, j]
          invariant forall c, d :: 0 <= c && 0 <= d <= |y| && Before(c, d, a, b) && Before(c, d, i, j) ==> V[c, d] < V[i, j]
        {
          if V[a, b] > V[i, j] {
            i, j := a, b;
          }
        }
      }
      forall c: nat, d: nat | Params().InRange(c, d)
        ensures VCell(Params(), c, d) <= VCell(Params(), i, j)
        ensures RowMajorBefore((c, d), (i, j)) ==> VCell(Params(), c, d) < VCell(Params(), i, j)
      {
      }
    }

    /** `traceback`: from the first maximal cell, step back while the cell is
        not 0, choosing the diagonal, then the vertical, then the horizontal
        move, and append a column to the transcript and to the three alignment
        rows; the rows are reversed at the end. The start cell is returned. */
    method Traceback() returns (ghost i0: nat, ghost j0: nat)
      requires Shaped() && Filled()
      modifies this`xscript, this`alignment
      ensures FirstMax(Params(), i0, j0)
      ensures xscript == Map(LWalk(Params(), i0, j0).cols, ScriptChar)
      ensures alignment == AlignmentText(LWalk(Params(), i0, j0).cols)
    {
      var i: nat, j: nat := ArgMax();
      i0, j0 := i, j;
      var xs, alx, aly, alm := "", "", "", "";
      ghost var whole := LWalk(Params(), i, j);
      ghost var done: seq<LColumn> := [];
      assert whole.cols + done == whole.cols;
      while (i > 0 || j > 0) && V[i, j] != 0
        invariant i <= |x| && j <= |y|
        invariant LResumes(Params(), whole, i, j, done)
        invariant Transcribed(done, xs, alx, alm, aly)
        decreases i + j
      {
        assert i >= 1 && j >= 1;
        ghost var st := LStep(Params(), i, j);
        LResumesStep(Params(), whole, i, j, done, st.0, st.1);
        TranscribedStep(done, xs, alx, alm, aly, st.0);
        var sc, tc, mc, bc;
        sc, tc, mc, bc, i, j := TraceStep(i, j);
        xs, alx, alm, aly := xs + [sc], alx + [tc], alm + [mc], aly + [bc];
        done := [st.0] + done;
      }
      LResumesEnd(Params(), whole, i, j, done);
      TranscribedRender(done, xs, alx, alm, aly);
      xscript := Reverse(xs);
      alignment := Reverse(alx) + "\n" + Reverse(alm) + "\n" + Reverse(aly);
    }

    /** One iteration of the traceback loop from an interior cell: the three
        moves are read off V, the largest wins with ties going to the diagonal
        and then to the vertical move, and the characters of the column are
        produced for the transcript and the three rows. */
    method TraceStep(i: nat, j: nat) returns (sc: char, tc: char, mc: char, bc: char, ni: nat, nj: nat)
      requires Shaped() && Filled() && 1 <= i <= |x| && 1 <= j <= |y|
      ensures var st := LStep(Params(), i, j);
        && ni == st.1.0 && nj == st.1.1
        && sc == ScriptChar(st.0) && tc == TopChar(st.0) && mc == MidChar(st.0) && bc == BottomChar(st.0)
    {
      var diag, vert, horz := 0, 0, 0;
      if i > 0 && j > 0 {
        diag := V[i - 1, j - 1] + s(x[i - 1], y[j - 1]);
      }
      if i > 0 {
        vert := V[i - 1, j] + s(x[i - 1], '-');
      }
      if j > 0 {
        horz := V[i, j - 1] + s('-', y[j - 1]);
      }
      if diag >= vert && diag >= horz {
        var isMatch := x[i - 1] == y[j - 1];
        sc := if isMatch then 'M' else 'R';
        mc := if isMatch then '|' else ' ';
        tc, bc := x[i - 1], y[j - 1];
        ni, nj := i - 1, j - 1;
      } else if vert >= horz {
        sc, tc, bc, mc := 'D', x[i - 1], '-', ' ';
        ni, nj := i - 1, j;
      } else {
        sc, bc, tc, mc := 'I', y[j - 1], '-', ' ';
        ni, nj := i, j - 1;
      }
    }
  }

  /** The copy without a traceback: the score function is its own
      `test_score_matrix`, and `fill_matrix` behaves as above. */
  method FillOnly(seqX: string, seqY: string) returns (r: Result<int, FillError>)
    ensures exists best :: IsMax(LSetup(seqX, seqY, TestScoreMatrix), best) && r == VMax(LSetup(seqX, seqY, TestScoreMatrix), best)
  {
    var la := new LocalAlignment(seqX, seqY, TestScoreMatrix);
    r := la.FillMatrix();
  }
}
