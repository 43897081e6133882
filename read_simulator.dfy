/** scripts/read_simulator.py, `read_simulation`: error-free reads of a fixed
    length tiled over every reference at a fixed step, references taken in
    sorted order, each read named after the half-open range it covers. */
module ReadSimulator {
  import opened Wrappers
  import opened Text
  import opened Grid

  /** Python's `<` on strings: code point by code point, a proper prefix first. */
  predicate Below(a: string, b: string)
  {
    if a == [] then b != []
    else b != [] && (a[0] < b[0] || (a[0] == b[0] && Below(a[1..], b[1..])))
  }

  /** `names` is `sorted(seqs)`: every key once, in increasing order. */
  ghost predicate SortedKeys(names: seq<string>, seqs: map<string, string>)
  {
    && (forall name :: name in seqs <==> name in names)
    && (forall a, b :: 0 <= a < b < |names| ==> Below(names[a], names[b]))
  }

  /** (read id, read sequence) */
  type Read = (string, string)

  /** `name + '|[%d,%d)' % (i, i + readLen)`. */
  function ReadId(name: string, a: nat, b: nat): string
  {
    name + "|[" + Decimal(a) + "," + Decimal(b) + ")"
  }

  /** The read of `s` at offset `off`. */
  function ReadAt(name: string, s: string, readLen: nat, off: nat): Read
    requires off + readLen <= |s|
  {
    (ReadId(name, off, off + readLen), s[off..off + readLen])
  }

  /** The reads of one reference `s` from offset `i` on, one per step while
      the read fits. */
  function Tiles(name: string, s: string, readLen: nat, step: nat, i: nat): seq<Read>
    requires step > 0
    decreases |s| - i
  {
    if |s| < i + readLen then []
    else [ReadAt(name, s, readLen, i)] + Tiles(name, s, readLen, step, i + step)
  }

  /** The reads of the references `names`, one reference after the other. */
  function Simulation(names: seq<string>, seqs: map<string, string>, readLen: nat, step: nat): seq<Read>
    requires step > 0 && forall u :: 0 <= u < |names| ==> names[u] in seqs
  {
    if names == [] then []
    else
      var last := names[|names| - 1];
      Simulation(names[..|names| - 1], seqs, readLen, step) + Tiles(last, seqs[last], readLen, step, 0)
  }

  /** Why `read_simulation` fails. */
  datatype SimulationError =
    /** `range` with a step of 0 raises ValueError; this happens at the first
        reference, so not at all when there is none. */
    ZeroStep

  /** What `read_simulation` returns or raises. */
  function Simulated(names: seq<string>, seqs: map<string, string>, readLen: nat, step: nat): Result<seq<Read>, SimulationError>
    requires forall u :: 0 <= u < |names| ==> names[u] in seqs
  {
    if names == [] then Success([])
    else if step == 0 then Failure(ZeroStep)
    else Success(Simulation(names, seqs, readLen, step))
  }

  /** The inner loop: the reads of one reference appended to `done`. */
  method AppendTiles(done: seq<Read>, name: string, s: string, readLen: nat, step: nat) returns (out: seq<Read>)
    requires step > 0
    ensures out == done + Tiles(name, s, readLen, step, 0)
  {
    out := done;
    var i: nat := 0;
    while i + readLen <= |s|
      invariant out + Tiles(name, s, readLen, step, i) == done + Tiles(name, s, readLen, step, 0)
      decreases |s| - i
    {
      var readId := name + "|[" + Decimal(i) + "," + Decimal(i + readLen) + ")";
      var readSeq := s[i..i + readLen];
      assert (readId, readSeq) == ReadAt(name, s, readLen, i);
      assert out + [(readId, readSeq)] + Tiles(name, s, readLen, step, i + step) == out + Tiles(name, s, readLen, step, i);
      out := out + [(readId, readSeq)];
      i := i + step;
    }
    assert out + [] == out;
  }

  /** `read_simulation(seqs, readLen, cov)` with `names = sorted(seqs)` and the
      step `int(readLen/cov)` given. */
  method ReadSimulation(names: seq<string>, seqs: map<string, string>, readLen: nat, step: nat)
    returns (r: Result<seq<Read>, SimulationError>)
    requires SortedKeys(names, seqs)
    ensures r == Simulated(names, seqs, readLen, step)
  {
    var done: seq<Read> := [];
    for u := 0 to |names|
      invariant step == 0 ==> u == 0 && done == []
      invariant step > 0 ==> done == Simulation(names[..u], seqs, readLen, step)
    {
      assert names[..u + 1][..u] == names[..u];
      var name := names[u];
      var s := seqs[name];
      if step == 0 {
        return Failure(ZeroStep);
      }
      done := AppendTiles(done, name, s, readLen, step);
    }
    assert names[..|names|] == names;
    r := Success(done);
  }

  /** Read t of a reference starts at t steps from `i`; the reads fit, cover
      the offsets up to |s| - readLen, and are none when the reference is
      shorter than a read. */
  lemma TilesAt(name: string, s: string, readLen: nat, step: nat, i: nat)
    requires step > 0
    ensures var r := Tiles(name, s, readLen, step, i);
      && (|r| == 0 <==> |s| < i + readLen)
      && (|r| > 0 ==> i + (|r| - 1) * step + readLen <= |s| < i + |r| * step + readLen)
      && forall t :: 0 <= t < |r| ==> i + t * step + readLen <= |s| && r[t] == ReadAt(name, s, readLen, i + t * step)
  {
    TilesCount(name, s, readLen, step, i);
    forall t | 0 <= t < |Tiles(name, s, readLen, step, i)|
      ensures i + t * step + readLen <= |s|
      ensures Tiles(name, s, readLen, step, i)[t] == ReadAt(name, s, readLen, i + t * step)
    {
      TileAt(name, s, readLen, step, i, t);
    }
  }

  /** How many reads there are: none when the reference is shorter than a
      read, else as many as fit before the last read start passes
      |s| - readLen. */
  lemma {:induction false} TilesCount(name: string, s: string, readLen: nat, step: nat, i: nat)
    requires step > 0
    ensures var r := Tiles(name, s, readLen, step, i);
      && (|r| == 0 <==> |s| < i + readLen)
      && (|r| > 0 ==> i + (|r| - 1) * step + readLen <= |s| < i + |r| * step + readLen)
    decreases |s| - i
  {
    if i + readLen <= |s| {
      TilesCount(name, s, readLen, step, i + step);
      var n := |Tiles(name, s, readLen, step, i + step)|;
      StrideOffset(i, step, n + 1);
      if n > 0 {
        StrideOffset(i, step, n);
      }
    }
  }

  /** Read t from offset i is the read at offset i + t * step. */
  lemma {:induction false} TileAt(name: string, s: string, readLen: nat, step: nat, i: nat, t: nat)
    requires step > 0 && t < |Tiles(name, s, readLen, step, i)|
    ensures i + t * step + readLen <= |s|
    ensures Tiles(name, s, readLen, step, i)[t] == ReadAt(name, s, readLen, i + t * step)
    decreases t
  {
    if t > 0 {
      TileAt(name, s, readLen, step, i + step, t - 1);
      StrideOffset(i, step, t);
      assert Tiles(name, s, readLen, step, i)[t] == Tiles(name, s, readLen, step, i + step)[t - 1];
    }
  }

  /** Every simulated read is an exact slice of length readLen of one of the
      references, named after that reference and the range it covers. */
  lemma {:induction false} SimulationSound(names: seq<string>, seqs: map<string, string>, readLen: nat, step: nat, m: nat)
    returns (u: nat, off: nat)
    requires step > 0 && forall v :: 0 <= v < |names| ==> names[v] in seqs
    requires m < |Simulation(names, seqs, readLen, step)|
    ensures u < |names| && off + readLen <= |seqs[names[u]]|
    ensures Simulation(names, seqs, readLen, step)[m] == ReadAt(names[u], seqs[names[u]], readLen, off)
  {
    var init := names[..|names| - 1];
    var last := names[|names| - 1];
    var before := Simulation(init, seqs, readLen, step);
    var tiles := Tiles(last, seqs[last], readLen, step, 0);
    assert Simulation(names, seqs, readLen, step) == before + tiles;
    if m < |before| {
      u, off := SimulationSound(init, seqs, readLen, step, m);
    } else {
      TilesAt(last, seqs[last], readLen, step, 0);
      u, off := |names| - 1, (m - |before|) * step;
    }
  }

  /** In `d + "," + x` with `d` all digits, the first comma is at |d|. */
  lemma FirstComma(d: string, x: string)
    requires forall k :: 0 <= k < |d| ==> '0' <= d[k] <= '9'
    ensures (d + "," + x)[|d|] == ','
    ensures forall k :: 0 <= k < |d| ==> (d + "," + x)[k] != ','
  {
  }

  /** Digits before the first comma: splitting `d + "," + x` at its first
      comma gives `d` back. */
  lemma CommaSplit(d1: string, x1: string, d2: string, x2: string)
    requires forall k :: 0 <= k < |d1| ==> '0' <= d1[k] <= '9'
    requires forall k :: 0 <= k < |d2| ==> '0' <= d2[k] <= '9'
    requires d1 + "," + x1 == d2 + "," + x2
    ensures d1 == d2 && x1 == x2
  {
    var w1, w2 := d1 + "," + x1, d2 + "," + x2;
    FirstComma(d1, x1);
    FirstComma(d2, x2);
    assert |d1| == |d2|;
    assert d1 == w1[..|d1|] && d2 == w2[..|d2|];
    assert x1 == w1[|d1| + 1..] && x2 == w2[|d2| + 1..];
  }

  /** After the name and "|[" the id holds the start, a comma, the end and ")". */
  lemma ReadIdTail(name: string, a: nat, b: nat)
    ensures ReadId(name, a, b)[|name| + 2..] == Decimal(a) + "," + (Decimal(b) + ")")
  {
  }

  /** A number followed by ")" is read back unchanged. */
  lemma ClosedDecimal(b1: nat, b2: nat)
    requires Decimal(b1) + ")" == Decimal(b2) + ")"
    ensures b1 == b2
  {
    assert Decimal(b1) == (Decimal(b1) + ")")[..|Decimal(b1)|];
    assert Decimal(b2) == (Decimal(b2) + ")")[..|Decimal(b2)|];
    DecimalValue(b1);
    DecimalValue(b2);
  }

  /** The read id encodes the half-open range: two reads of one reference
      with the same id cover the same range. */
  lemma ReadIdRange(name: string, a1: nat, b1: nat, a2: nat, b2: nat)
    requires ReadId(name, a1, b1) == ReadId(name, a2, b2)
    ensures a1 == a2 && b1 == b2
  {
    ReadIdTail(name, a1, b1);
    ReadIdTail(name, a2, b2);
    CommaSplit(Decimal(a1), Decimal(b1) + ")", Decimal(a2), Decimal(b2) + ")");
    DecimalValue(a1);
    DecimalValue(a2);
    ClosedDecimal(b1, b2);
  }
}
