/** Small helpers over integers and the cells of a score matrix, shared by the
    alignment models. */
module Grid {
  /** Python `max(a, b)` on integers. */
  function Max(a: int, b: int): int
  {
    if a < b then b else a
  }

  function Min(a: int, b: int): int
  {
    if a < b then a else b
  }

  /** Cell `a` comes before cell `b` in row-major order, the order of
      `np.where` and `np.argmax`. */
  predicate RowMajorBefore(a: (nat, nat), b: (nat, nat))
  {
    a.0 < b.0 || (a.0 == b.0 && a.1 < b.1)
  }

  /** A strictly row-major list whose entries are all `a` or `b`, and which holds
      both, is `[a, b]`. */
  lemma RowMajorPair(locs: seq<(nat, nat)>, a: (nat, nat), b: (nat, nat))
    requires RowMajorBefore(a, b) && a in locs && b in locs
    requires forall k :: 0 <= k < |locs| ==> locs[k] == a || locs[k] == b
    requires forall k, l :: 0 <= k < l < |locs| ==> RowMajorBefore(locs[k], locs[l])
    ensures locs == [a, b]
  {
    // every entry after the first is `b`, every entry before the last is `a`
    assert forall k :: 0 < k < |locs| ==> RowMajorBefore(locs[0], locs[k]) && locs[k] == b;
    assert forall k :: 0 <= k < |locs| - 1 ==> RowMajorBefore(locs[k], locs[|locs| - 1]) && locs[k] == a;
    var ka :| 0 <= ka < |locs| && locs[ka] == a;
    var kb :| 0 <= kb < |locs| && locs[kb] == b;
    assert ka == 0 && kb == |locs| - 1 && 1 < |locs|;
    assert locs[1] == b != a;
  }

  /** One stride of g from i, then t - 1 more, is t strides from i: the offset
      of the next seed, tile or chunk of a loop stepping by g. */
  lemma StrideOffset(i: nat, g: nat, t: nat)
    requires t >= 1
    ensures i + g + (t - 1) * g == i + t * g
  {
  }

  /** Cell (a, b) is visited before cell (i, j) by a row-major scan. */
  predicate Before(a: int, b: int, i: int, j: int)
  {
    a < i || (a == i && b < j)
  }
}
