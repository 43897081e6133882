/** The `LocalAlignment` class: three score matrices filled in place, the
    maximal cells of M, and the traceback from each of them. Every method is
    proved to compute what module GotohSpec defines. */
module Gotoh {
  import opened Text
  import opened GotohSpec
  import opened Grid

  class LocalAlignment {
    const x: string
    const y: string
    const s: (char, char) -> int
    const go: int
    const ge: int
    /** X: alignments ending with a residue of x against a gap ('_' in y). */
    const X: array2<Cell>
    /** Y: alignments ending with a residue of y against a gap ('_' in x). */
    const Y: array2<Cell>
    /** M: best local alignment ending at each cell. */
    const M: array2<int>

    var maxLocList: seq<(nat, nat)>
    var score: int
    var alignSeqXList: seq<string>
    var alignSeqYList: seq<string>
    var xscriptList: seq<string>
    var maxLocXList: seq<(int, int)>
    var maxLocYList: seq<(int, int)>

    ghost function Params(): Setup
    {
      Setup(x, y, s, go, ge)
    }

    /** The three matrices are (|x| + 1) x (|y| + 1). */
    ghost predicate Shaped()
    {
      && X.Length0 == |x| + 1 && X.Length1 == |y| + 1
      && Y.Length0 == |x| + 1 && Y.Length1 == |y| + 1
      && M.Length0 == |x| + 1 && M.Length1 == |y| + 1
      && X != Y
    }

    /** Cell (i, j) of each matrix holds what the recurrences define. */
    ghost predicate Agrees(i: nat, j: nat)
      requires Shaped() && i <= |x| && j <= |y|
      reads X, Y, M
    {
      X[i, j] == XCell(Params(), i, j) && Y[i, j] == YCell(Params(), i, j) && M[i, j] == MCell(Params(), i, j)
    }

    /** Row 0 and column 0 hold the borders. */
    ghost predicate Bordered()
      requires Shaped()
      reads X, Y, M
    {
      forall i: nat, j: nat | i <= |x| && j <= |y| && (i == 0 || j == 0) :: Agrees(i, j)
    }

    /** Every cell holds what the recurrences define. */
    ghost predicate Filled()
      requires Shaped()
      reads X, Y, M
    {
      forall i: nat, j: nat | i <= |x| && j <= |y| :: Agrees(i, j)
    }

    /** Allocates the matrices and sets the borders: M is 0 in row 0 and column
        0, X is NaN in column 0 and minus infinity in the rest of row 0, and Y is
        NaN in row 0 and minus infinity in the rest of column 0. */
    constructor (seqX: string, seqY: string, scoreMatrix: (char, char) -> int, gapOpen: int := -12, gapExt: int := -4)
      ensures x == seqX && y == seqY && s == scoreMatrix && go == gapOpen && ge == gapExt
      ensures Shaped() && Bordered()
      ensures fresh(X) && fresh(Y) && fresh(M)
    {
      x, y, s, go, ge := seqX, seqY, scoreMatrix, gapOpen, gapExt;
      var dimI := |seqX| + 1;
      var dimJ := |seqY| + 1;
      X := new Cell[dimI, dimJ]((_, _) => Fin(0));
      Y := new Cell[dimI, dimJ]((_, _) => Fin(0));
      M := new int[dimI, dimJ]((_, _) => 0);
      maxLocList, score := [], 0;
      alignSeqXList, alignSeqYList, xscriptList := [], [], [];
      maxLocXList, maxLocYList := [], [];
      new;
      SetColumnZero();
      SetRowZero();
      forall i: nat, j: nat | i <= |x| && j <= |y| && (i == 0 || j == 0)
        ensures Agrees(i, j)
      {
      }
    }

    /** The first border loop: X is NaN down column 0, Y is NaN at (0, 0) and
        minus infinity below it. */
    method SetColumnZero()
      requires Shaped()
      modifies X, Y
      ensures forall a :: 0 <= a <= |x| ==> X[a, 0] == NaN && Y[a, 0] == (if a == 0 then NaN else NegInf)
      ensures forall a, b :: 0 <= a <= |x| && 1 <= b <= |y| ==> X[a, b] == old(X[a, b]) && Y[a, b] == old(Y[a, b])
    {
      X[0, 0], Y[0, 0] := NaN, NaN;
      for i := 1 to |x| + 1
        invariant X[0, 0] == NaN && Y[0, 0] == NaN
        invariant forall a, b :: 0 <= a <= |x| && 1 <= b <= |y| ==> X[a, b] == old(X[a, b]) && Y[a, b] == old(Y[a, b])
        invariant forall a :: 1 <= a < i ==> X[a, 0] == NaN && Y[a, 0] == NegInf
      {
        X[i, 0] := NaN;
        Y[i, 0] := NegInf;
      }
    }

    /** The second border loop: X is minus infinity and Y is NaN along the rest
        of row 0; column 0 stays as it was. */
    method SetRowZero()
      requires Shaped()
      modifies X, Y
      ensures forall b :: 1 <= b <= |y| ==> X[0, b] == NegInf && Y[0, b] == NaN
      ensures forall a :: 0 <= a <= |x| ==> X[a, 0] == old(X[a, 0]) && Y[a, 0] == old(Y[a, 0])
    {
      for j := 1 to |y| + 1
        invariant forall a :: 0 <= a <= |x| ==> X[a, 0] == old(X[a, 0]) && Y[a, 0] == old(Y[a, 0])
        invariant forall b :: 1 <= b < j ==> X[0, b] == NegInf && Y[0, b] == NaN
      {
        X[0, j] := NegInf;
        Y[0, j] := NaN;
      }
    }

    /** `_match(i, j)`: the score of x[i-1] against y[j-1]. */
    function Match(i: nat, j: nat): int
      requires 1 <= i <= |x| && 1 <= j <= |y|
    {
      s(x[i - 1], y[j - 1])
    }

    /** Fills X, Y and M column by column, then records the maximal cells of M
        and the score. */
    method FillMatrix() returns (r: int)
      requires Shaped() && Bordered()
      modifies X, Y, M, this`maxLocList, this`score
      ensures Filled()
      ensures MaxCells(Params(), score, maxLocList) && maxLocList != [] && r == score
    {
      for j := 1 to |y| + 1
        invariant Bordered()
        invariant forall a: nat, b: nat | 1 <= a <= |x| && 1 <= b < j :: Agrees(a, b)
      {
        FillColumn(j);
      }
      r := RecordMaxima();
    }

    /** The end of `fillMatrix`: the maximal cells of M, and the score read
        back from the first of them. */
    method RecordMaxima() returns (r: int)
      requires Shaped() && Filled()
      modifies this`maxLocList, this`score
      ensures MaxCells(Params(), score, maxLocList) && maxLocList != [] && r == score
    {
      var best;
      ghost var at;
      best, at := MaxOfM();
      maxLocList := CellsEqualTo(best);
      assert at in maxLocList;
      score := M[maxLocList[0].0, maxLocList[0].1];
      assert Agrees(maxLocList[0].0, maxLocList[0].1);
      r := score;
    }

    /** The inner fill loop: column j, row by row. */
    method FillColumn(j: nat)
      requires Shaped() && Bordered() && 1 <= j <= |y|
      requires forall a: nat, b: nat | 1 <= a <= |x| && 1 <= b < j :: Agrees(a, b)
      modifies X, Y, M
      ensures Bordered()
      ensures forall a: nat, b: nat | 1 <= a <= |x| && 1 <= b <= j :: Agrees(a, b)
    {
      for i := 1 to |x| + 1
        invariant Bordered()
        invariant forall a: nat, b: nat | 1 <= a <= |x| && 1 <= b < j :: Agrees(a, b)
        invariant forall a: nat | 1 <= a < i :: Agrees(a, j)
      {
        label Before:
        FillCell(i, j);
        forall a: nat, b: nat | a <= |x| && b <= |y| && (a != i || b != j) && old@Before(Agrees(a, b))
          ensures Agrees(a, b)
        {
        }
      }
    }

    /** The body of the fill loop at cell (i, j): X, Y and M there, from the
        cells above, to the left and diagonally above-left. */
    method FillCell(i: nat, j: nat)
      requires Shaped() && 1 <= i <= |x| && 1 <= j <= |y|
      requires Agrees(i - 1, j) && Agrees(i, j - 1) && Agrees(i - 1, j - 1)
      modifies X, Y, M
      ensures Agrees(i, j)
      ensures forall a, b :: 0 <= a <= |x| && 0 <= b <= |y| && (a != i || b != j) ==>
        X[a, b] == old(X[a, b]) && Y[a, b] == old(Y[a, b]) && M[a, b] == old(M[a, b])
    {
      X[i, j] := MaxCell(M[i - 1, j] + go + ge, Plus(X[i - 1, j], ge));
      Y[i, j] := MaxCell(M[i, j - 1] + go + ge, Plus(Y[i, j - 1], ge));
      M[i, j] := Max(Max(M[i - 1, j - 1] + Match(i, j), X[i, j].v), Max(Y[i, j].v, 0));
    }

    /** `M.max()`: the largest cell of M. */
    method MaxOfM() returns (best: int, ghost at: (nat, nat))
      requires Shaped() && Filled()
      ensures forall i: nat, j: nat :: i <= |x| && j <= |y| ==> MCell(Params(), i, j) <= best
      ensures at.0 <= |x| && at.1 <= |y| && MCell(Params(), at.0, at.1) == best
    {
      best, at := M[0, 0], (0, 0);
      for i := 0 to |x| + 1
        invariant at.0 <= |x| && at.1 <= |y| && M[at.0, at.1] == best
        invariant forall a, b :: 0 <= a < i && 0 <= b <= |y| ==> M[a, b] <= best
      {
        for j := 0 to |y| + 1
          invariant at.0 <= |x| && at.1 <= |y| && M[at.0, at.1] == best
          invariant forall a, b :: 0 <= a < i && 0 <= b <= |y| ==> M[a, b] <= best
          invariant forall b :: 0 <= b < j ==> M[i, b] <= best
        {
          if M[i, j] > best {
            best, at := M[i, j], (i, j);
          }
        }
      }
      assert Agrees(at.0, at.1);
      forall i: nat, j: nat | i <= |x| && j <= |y|
        ensures MCell(Params(), i, j) <= best
      {
        assert Agrees(i, j);
      }
    }

    /** `np.where(M == v)`: the cells of M equal to v, in row-major order. */
    method CellsEqualTo(v: int) returns (locs: seq<(nat, nat)>)
      requires Shaped() && Filled()
      ensures forall k :: 0 <= k < |locs| ==> Params().InRange(locs[k].0, locs[k].1) && MCell(Params(), locs[k].0, locs[k].1) == v
      ensures forall i: nat, j: nat :: i <= |x| && j <= |y| && MCell(Params(), i, j) == v ==> (i, j) in locs
      ensures forall k, l :: 0 <= k < l < |locs| ==> RowMajorBefore(locs[k], locs[l])
    {
      locs := [];
      for i := 0 to |x| + 1
        invariant forall k :: 0 <= k < |locs| ==> locs[k].0 < i && locs[k].1 <= |y| && M[locs[k].0, locs[k].1] == v
        invariant forall a, b :: 0 <= a < i && 0 <= b <= |y| && M[a, b] == v ==> (a, b) in locs
        invariant forall k, l :: 0 <= k < l < |locs| ==> RowMajorBefore(locs[k], locs[l])
      {
        locs := RowEqualTo(v, i, locs);
      }
      forall k | 0 <= k < |locs|
        ensures Params().InRange(locs[k].0, locs[k].1) && MCell(Params(), locs[k].0, locs[k].1) == v
      {
        assert Agrees(locs[k].0, locs[k].1);
      }
      forall i: nat, j: nat | i <= |x| && j <= |y| && MCell(Params(), i, j) == v
        ensures (i, j) in locs
      {
        assert Agrees(i, j);
      }
    }

    /** One row of `np.where(M == v)`: the cells of row i equal to v, appended
        in column order to those of the rows above. */
    method RowEqualTo(v: int, i: nat, locs0: seq<(nat, nat)>) returns (locs: seq<(nat, nat)>)
      requires Shaped() && i <= |x|
      requires forall k :: 0 <= k < |locs0| ==> locs0[k].0 < i && locs0[k].1 <= |y| && M[locs0[k].0, locs0[k].1] == v
      requires forall a, b :: 0 <= a < i && 0 <= b <= |y| && M[a, b] == v ==> (a, b) in locs0
      requires forall k, l :: 0 <= k < l < |locs0| ==> RowMajorBefore(locs0[k], locs0[l])
      ensures forall k :: 0 <= k < |locs| ==> locs[k].0 < i + 1 && locs[k].1 <= |y| && M[locs[k].0, locs[k].1] == v
      ensures forall a, b :: 0 <= a < i + 1 && 0 <= b <= |y| && M[a, b] == v ==> (a, b) in locs
      ensures forall k, l :: 0 <= k < l < |locs| ==> RowMajorBefore(locs[k], locs[l])
    {
      locs := locs0;
      for j := 0 to |y| + 1
        invariant forall k :: 0 <= k < |locs| ==> Before(locs[k].0, locs[k].1, i, j) && locs[k].0 <= i && locs[k].1 <= |y| && M[locs[k].0, locs[k].1] == v
        invariant forall a, b :: 0 <= a && 0 <= b <= |y| && Before(a, b, i, j) && M[a, b] == v ==> (a, b) in locs
        invariant forall k, l :: 0 <= k < l < |locs| ==> RowMajorBefore(locs[k], locs[l])
      {
        if M[i, j] == v {
          locs := locs + [(i, j)];
        }
      }
    }

    /** One iteration of the traceback loop at cell (i, j) with value v: the
        branch is chosen by comparing M with Y, then with X, then with the
        diagonal predecessor; it gives the characters appended to the three rows
        and the next cell and value. */
    method TraceStep(i: nat, j: nat, v: Cell) returns (ax: char, ay: char, mark: char, ni: nat, nj: nat, nv: Cell)
      requires Shaped() && Filled() && ge <= 0 && i <= |x| && j <= |y|
      requires WalkInv(Params(), i, j, v) && v != Fin(0)
      ensures var st := Step(Params(), i, j, v);
        && ax == XChar(st.0) && ay == YChar(st.0) && mark == MarkChar(st.0)
        && ni == st.1.i && nj == st.1.j && nv == st.1.v
    {
      var p := Params();
      assert i >= 1 && j >= 1;
      assert Agrees(i, j) && Agrees(i - 1, j) && Agrees(i, j - 1) && Agrees(i - 1, j - 1);
      if Fin(M[i, j]) == Y[i, j] {
        ax, ay, mark := '_', y[j - 1], ' ';
        if Y[i, j] == Plus(Y[i, j - 1], ge) {
          nv := Y[i, j - 1];
        } else {
          nv := Fin(M[i, j - 1]);
        }
        ni, nj := i, j - 1;
      } else if Fin(M[i, j]) == X[i, j] {
        ax, ay, mark := x[i - 1], '_', ' ';
        if X[i, j] == Plus(X[i - 1, j], ge) {
          nv := X[i - 1, j];
        } else {
          nv := Fin(M[i - 1, j]);
        }
        ni, nj := i - 1, j;
      } else if M[i, j] == M[i - 1, j - 1] + Match(i, j) {
        ax, ay := x[i - 1], y[j - 1];
        mark := if x[i - 1] == y[j - 1] then '|' else '*';
        nv := Fin(M[i - 1, j - 1]);
        ni, nj := i - 1, j - 1;
      } else {
        assert false;
      }
    }

    /** The while loop of the traceback from the maximal cell (i0, j0): it
        appends one character per column to each row, from the last column to
        the first, and stops at the cell (i, j) where the value reaches 0. */
    method WalkBack(i0: nat, j0: nat) returns (alignX: string, alignY: string, xscript: string, i: nat, j: nat)
      requires Shaped() && Filled() && ge <= 0 && i0 <= |x| && j0 <= |y|
      ensures MCell(Params(), i0, j0) >= 0
      ensures var t := Walk(Params(), i0, j0, Fin(MCell(Params(), i0, j0)));
        ReversedRows(t.cols, alignX, alignY, xscript) && i == t.startI && j == t.startJ
    {
      var p := Params();
      alignX, alignY, xscript := "", "", "";
      i, j := i0, j0;
      assert Agrees(i, j);
      var v := Fin(M[i, j]);
      LocalFloor(p, i, j);
      ghost var whole := Walk(p, i0, j0, v);
      ghost var done: seq<Column> := [];
      assert whole.cols == whole.cols + done;
      while v != Fin(0)
        invariant p.InRange(i, j) && WalkInv(p, i, j, v)
        invariant Resumes(p, whole, i, j, v, done)
        invariant ReversedRows(done, alignX, alignY, xscript)
        decreases i + j
      {
        ghost var st := Step(p, i, j, v);
        ResumesStep(p, whole, i, j, v, done);
        ReversedRowsStep(done, alignX, alignY, xscript, st.0);
        var ax, ay, mark;
        ax, ay, mark, i, j, v := TraceStep(i, j, v);
        alignX, alignY, xscript := alignX + [ax], alignY + [ay], xscript + [mark];
        done := [st.0] + done;
      }
      ResumesEnd(p, whole, i, j, done);
    }

    /** One pass of the traceback's loop over the maximal cells: walk back from
        (i0, j0), reverse the three rows, and pair them with the ranges
        [start, i0 - 1] and [start, j0 - 1]. */
    method TraceOne(i0: nat, j0: nat) returns (r: Alignment)
      requires Shaped() && Filled() && ge <= 0 && i0 <= |x| && j0 <= |y|
      ensures r == Render(Params(), i0, j0)
    {
      var alignX, alignY, xscript, i, j := WalkBack(i0, j0);
      ghost var whole := Walk(Params(), i0, j0, Fin(MCell(Params(), i0, j0)));
      ReversedRowsRender(whole.cols, alignX, alignY, xscript);
      r := Alignment(Reverse(alignX), Reverse(alignY), Reverse(xscript), (i, i0 - 1), (j, j0 - 1));
      RenderWalk(Params(), i0, j0, whole);
    }

    /** `traceback`: one alignment per maximal cell, in the order of
        `maxLocList`, stored in the list fields and returned with the score. */
    method Traceback() returns (sc: int, ax: seq<string>, ay: seq<string>, xs: seq<string>,
                                lx: seq<(int, int)>, ly: seq<(int, int)>)
      requires Shaped() && Filled() && ge <= 0
      requires forall k :: 0 <= k < |maxLocList| ==> maxLocList[k].0 <= |x| && maxLocList[k].1 <= |y|
      modifies this`alignSeqXList, this`alignSeqYList, this`xscriptList, this`maxLocXList, this`maxLocYList
      ensures |ax| == |ay| == |xs| == |lx| == |ly| == |maxLocList|
      ensures forall k :: 0 <= k < |maxLocList| ==>
        Render(Params(), maxLocList[k].0, maxLocList[k].1) == Alignment(ax[k], ay[k], xs[k], lx[k], ly[k])
      ensures sc == score && alignSeqXList == ax && alignSeqYList == ay && xscriptList == xs
      ensures maxLocXList == lx && maxLocYList == ly
    {
      alignSeqXList, alignSeqYList, xscriptList := [], [], [];
      maxLocXList, maxLocYList := [], [];
      for k := 0 to |maxLocList|
        invariant TracedUpTo(Params(), maxLocList, alignSeqXList, alignSeqYList, xscriptList, maxLocXList, maxLocYList, k)
      {
        var r := TraceOne(maxLocList[k].0, maxLocList[k].1);
        TracedSnoc(Params(), maxLocList, alignSeqXList, alignSeqYList, xscriptList, maxLocXList, maxLocYList, k, r);
        alignSeqXList := alignSeqXList + [r.alignX];
        alignSeqYList := alignSeqYList + [r.alignY];
        xscriptList := xscriptList + [r.xscript];
        maxLocXList := maxLocXList + [r.locX];
        maxLocYList := maxLocYList + [r.locY];
      }
      sc, ax, ay, xs, lx, ly := score, alignSeqXList, alignSeqYList, xscriptList, maxLocXList, maxLocYList;
    }
  }

  /** The five output lists hold, for each of the first k maximal cells, the
      rendering of the walk from that cell. */
  ghost predicate TracedUpTo(p: Setup, locs: seq<(nat, nat)>, ax: seq<string>, ay: seq<string>, xs: seq<string>,
                             lx: seq<(int, int)>, ly: seq<(int, int)>, k: nat)
  {
    && |ax| == |ay| == |xs| == |lx| == |ly| == k
    && forall l :: 0 <= l < k && l < |locs| && p.ge <= 0 && p.InRange(locs[l].0, locs[l].1) ==>
         Render(p, locs[l].0, locs[l].1) == Alignment(ax[l], ay[l], xs[l], lx[l], ly[l])
  }

  /** Appending the rendering of cell k to each list extends the invariant. */
  lemma TracedSnoc(p: Setup, locs: seq<(nat, nat)>, ax: seq<string>, ay: seq<string>, xs: seq<string>,
                   lx: seq<(int, int)>, ly: seq<(int, int)>, k: nat, r: Alignment)
    requires TracedUpTo(p, locs, ax, ay, xs, lx, ly, k)
    requires k < |locs| && p.ge <= 0 && p.InRange(locs[k].0, locs[k].1) && r == Render(p, locs[k].0, locs[k].1)
    ensures TracedUpTo(p, locs, ax + [r.alignX], ay + [r.alignY], xs + [r.xscript], lx + [r.locX], ly + [r.locY], k + 1)
  {
  }
}
