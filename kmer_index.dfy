/** The k-mer index of the protein database, `protein_kmer_table`: every
    window of length k of every sequence is filed under its own text, as the
    pair (sequence id, offset), in the order the windows are met. */
module KmerIndex {
  import opened OrderedMap

  /** Where a window was found: the sequence id and the offset of its first
      residue. */
  type Hit = (string, nat)

  /** One window: its text, and where it was found. */
  type Window = (string, Hit)

  /** `range(len(sequence) - k + 1)` is empty when the sequence is shorter
      than k. */
  function WindowCount(s: string, k: nat): nat
  {
    if |s| >= k then |s| - k + 1 else 0
  }

  /** The first n windows of one sequence, by increasing offset. */
  function WindowsOf(id: string, s: string, k: nat, n: nat): (r: seq<Window>)
    requires n <= WindowCount(s, k)
    ensures |r| == n
    ensures forall t :: 0 <= t < n ==> t + k <= |s| && r[t] == (s[t..t + k], (id, t))
  {
    if n == 0 then [] else WindowsOf(id, s, k, n - 1) + [(s[n - 1..n - 1 + k], (id, n - 1))]
  }

  /** The windows of the first n sequences of `seqs`, in the order the loops
      meet them. */
  function Windows(seqs: ODict<string, string>, k: nat, n: nat): seq<Window>
    requires seqs.Valid() && n <= |seqs.keys|
  {
    if n == 0 then []
    else
      var id := seqs.keys[n - 1];
      Windows(seqs, k, n - 1) + WindowsOf(id, seqs.values[id], k, WindowCount(seqs.values[id], k))
  }

  function AllWindows(seqs: ODict<string, string>, k: nat): seq<Window>
    requires seqs.Valid()
  {
    Windows(seqs, k, |seqs.keys|)
  }

  /** `table[kmer]`, with a missing key read as the empty list. */
  function Lookup(table: ODict<string, seq<Hit>>, kmer: string): seq<Hit>
  {
    if kmer in table.values then table.values[kmer] else []
  }

  /** One step of the inner loop: create the key's list if it is missing,
      then append the hit. */
  function File(table: ODict<string, seq<Hit>>, w: Window): (r: ODict<string, seq<Hit>>)
    requires table.Valid()
    ensures r.Valid()
  {
    Put(table, w.0, Lookup(table, w.0) + [w.1])
  }

  /** The table after filing the windows ws one after the other. */
  function Index(ws: seq<Window>): (r: ODict<string, seq<Hit>>)
    ensures r.Valid()
  {
    if ws == [] then Empty() else File(Index(ws[..|ws| - 1]), ws[|ws| - 1])
  }

  /** The hits of the windows whose text is `kmer`, in order. */
  function Select(ws: seq<Window>, kmer: string): seq<Hit>
  {
    if ws == [] then []
    else Select(ws[..|ws| - 1], kmer) + (if ws[|ws| - 1].0 == kmer then [ws[|ws| - 1].1] else [])
  }

  lemma IndexSnoc(ws: seq<Window>, w: Window)
    ensures Index(ws + [w]) == File(Index(ws), w)
  {
    assert (ws + [w])[..|ws|] == ws;
  }

  lemma SelectAppend(ws: seq<Window>, vs: seq<Window>, kmer: string)
    ensures Select(ws + vs, kmer) == Select(ws, kmer) + Select(vs, kmer)
    decreases |vs|
  {
    if vs == [] {
      assert ws + vs == ws;
    } else {
      var last := vs[|vs| - 1];
      assert (ws + vs)[..|ws + vs| - 1] == ws + vs[..|vs| - 1];
      SelectAppend(ws, vs[..|vs| - 1], kmer);
    }
  }

  lemma InnerStep(before: seq<Window>, id: string, s: string, k: nat, loc: nat)
    requires loc < WindowCount(s, k)
    ensures Index(before + WindowsOf(id, s, k, loc + 1))
         == File(Index(before + WindowsOf(id, s, k, loc)), (s[loc..loc + k], (id, loc)))
  {
    var w := (s[loc..loc + k], (id, loc));
    assert before + WindowsOf(id, s, k, loc + 1) == (before + WindowsOf(id, s, k, loc)) + [w];
    IndexSnoc(before + WindowsOf(id, s, k, loc), w);
  }

  /** `if kmer not in table: table[kmer] = []` followed by the append is one
      filing step. */
  lemma FileAsWritten(table: ODict<string, seq<Hit>>, w: Window)
    requires table.Valid()
    ensures var t := if w.0 in table.values then table else Put(table, w.0, []);
      t.Valid() && w.0 in t.values && Put(t, w.0, t.values[w.0] + [w.1]) == File(table, w)
  {
    if w.0 !in table.values {
      PutPut(table, w.0, [], [w.1]);
    }
  }

  /** `protein_kmer_table`: the outer loop visits the sequences in the
      dictionary's order, the inner loop the offsets of one sequence. */
  method KmerTable(seqs: ODict<string, string>, k: nat) returns (table: ODict<string, seq<Hit>>)
    requires seqs.Valid()
    ensures table == Index(AllWindows(seqs, k))
  {
    table := Empty();
    for n := 0 to |seqs.keys|
      invariant table == Index(Windows(seqs, k, n))
    {
      var readId := seqs.keys[n];
      var sequence := seqs.values[readId];
      assert Windows(seqs, k, n + 1) == Windows(seqs, k, n) + WindowsOf(readId, sequence, k, WindowCount(sequence, k));
      table := FileSequence(table, readId, sequence, k, Windows(seqs, k, n));
    }
  }

  /** The inner loop of `protein_kmer_table`: file every window of one
      sequence, by increasing offset. */
  method FileSequence(table0: ODict<string, seq<Hit>>, readId: string, sequence: string, k: nat, ghost before: seq<Window>)
    returns (table: ODict<string, seq<Hit>>)
    requires table0 == Index(before)
    ensures table == Index(before + WindowsOf(readId, sequence, k, WindowCount(sequence, k)))
  {
    table := table0;
    assert before + WindowsOf(readId, sequence, k, 0) == before;
    for loc := 0 to WindowCount(sequence, k)
      invariant table == Index(before + WindowsOf(readId, sequence, k, loc))
    {
      var kmer := sequence[loc..loc + k];
      InnerStep(before, readId, sequence, k, loc);
      FileAsWritten(table, (kmer, (readId, loc)));
      if kmer !in table.values {
        table := Put(table, kmer, []);
      }
      table := Put(table, kmer, table.values[kmer] + [(readId, loc)]);
    }
  }

  // ---------------------------------------------------------------- properties

  /** The table files every window under its own text and nowhere else: the
      list under each key is exactly the hits of the windows with that text,
      in the order they were met, and a key is present exactly when some
      window has that text. */
  lemma {:induction false} IndexSelects(ws: seq<Window>, kmer: string)
    ensures kmer in Index(ws).values <==> Select(ws, kmer) != []
    ensures Lookup(Index(ws), kmer) == Select(ws, kmer)
  {
    if ws != [] {
      IndexSelects(ws[..|ws| - 1], kmer);
    }
  }

  /** Every window lies inside its sequence and has the text found there. */
  lemma {:induction false} WindowsSound(seqs: ODict<string, string>, k: nat, n: nat, t: nat)
    requires seqs.Valid() && n <= |seqs.keys| && t < |Windows(seqs, k, n)|
    ensures var w := Windows(seqs, k, n)[t];
      && w.1.0 in seqs.keys[..n] && w.1.0 in seqs.values
      && w.1.1 + k <= |seqs.values[w.1.0]|
      && w.0 == seqs.values[w.1.0][w.1.1..w.1.1 + k]
  {
    if t < |Windows(seqs, k, n - 1)| {
      WindowsSound(seqs, k, n - 1, t);
      WindowsPrefix(seqs, k, n, t);
      assert seqs.keys[..n - 1] <= seqs.keys[..n];
    } else {
      assert seqs.keys[..n][n - 1] == seqs.keys[n - 1];
    }
  }

  /** Soundness: every hit filed under a key K lies within its sequence, and
      the sequence reads K there. */
  lemma KmerTableSound(seqs: ODict<string, string>, k: nat, kmer: string, h: Hit)
    requires seqs.Valid() && h in Lookup(Index(AllWindows(seqs, k)), kmer)
    ensures h.0 in seqs.values && h.1 + k <= |seqs.values[h.0]|
    ensures seqs.values[h.0][h.1..h.1 + k] == kmer && |kmer| == k
  {
    var ws := AllWindows(seqs, k);
    IndexSelects(ws, kmer);
    var t := SelectFrom(ws, kmer, h);
    WindowsSound(seqs, k, |seqs.keys|, t);
  }

  /** A hit filed under `kmer` comes from a window with that text. */
  lemma {:induction false} SelectFrom(ws: seq<Window>, kmer: string, h: Hit) returns (t: nat)
    requires h in Select(ws, kmer)
    ensures t < |ws| && ws[t] == (kmer, h)
  {
    var rest := ws[..|ws| - 1];
    if h in Select(rest, kmer) {
      t := SelectFrom(rest, kmer, h);
    } else {
      t := |ws| - 1;
    }
  }

  /** Every window of each of the first n sequences is among their windows,
      at the position t returned. */
  lemma {:induction false} WindowsComplete(seqs: ODict<string, string>, k: nat, n: nat, id: string, loc: nat) returns (t: nat)
    requires seqs.Valid() && n <= |seqs.keys| && id in seqs.keys[..n] && loc + k <= |seqs.values[id]|
    ensures t < |Windows(seqs, k, n)| && Windows(seqs, k, n)[t] == (seqs.values[id][loc..loc + k], (id, loc))
  {
    if seqs.keys[n - 1] == id {
      t := WindowsLast(seqs, k, n, loc);
    } else {
      assert seqs.keys[..n] == seqs.keys[..n - 1] + [seqs.keys[n - 1]];
      t := WindowsComplete(seqs, k, n - 1, id, loc);
      WindowsPrefix(seqs, k, n, t);
    }
  }

  /** The windows of the n-th sequence come after those of the first n - 1. */
  lemma WindowsLast(seqs: ODict<string, string>, k: nat, n: nat, loc: nat) returns (t: nat)
    requires seqs.Valid() && 1 <= n <= |seqs.keys| && loc + k <= |seqs.values[seqs.keys[n - 1]]|
    ensures t < |Windows(seqs, k, n)|
    ensures Windows(seqs, k, n)[t] == (seqs.values[seqs.keys[n - 1]][loc..loc + k], (seqs.keys[n - 1], loc))
  {
    t := |Windows(seqs, k, n - 1)| + loc;
  }

  /** Adding a sequence keeps the windows already listed where they were. */
  lemma WindowsPrefix(seqs: ODict<string, string>, k: nat, n: nat, t: nat)
    requires seqs.Valid() && 1 <= n <= |seqs.keys| && t < |Windows(seqs, k, n - 1)|
    ensures t < |Windows(seqs, k, n)| && Windows(seqs, k, n)[t] == Windows(seqs, k, n - 1)[t]
  {
  }

  /** The hit of every window is in the selection for its text. */
  lemma {:induction false} SelectHas(ws: seq<Window>, t: nat)
    requires t < |ws|
    ensures ws[t].1 in Select(ws, ws[t].0)
  {
    if t < |ws| - 1 {
      SelectHas(ws[..|ws| - 1], t);
    }
  }

  /** Two hits in order from the same sequence cannot be equal, so an ordered
      list holds no hit twice. */
  lemma OrderedDistinct(hs: seq<Hit>)
    requires Ordered(hs)
    ensures forall a, b :: 0 <= a < b < |hs| ==> hs[a] != hs[b]
  {
  }

  /** Completeness, the converse of KmerTableSound: every window of every
      sequence is filed under its own text. */
  lemma KmerTableFinds(seqs: ODict<string, string>, k: nat, id: string, loc: nat)
    requires seqs.Valid() && id in seqs.values && loc + k <= |seqs.values[id]|
    ensures (id, loc) in Lookup(Index(AllWindows(seqs, k)), seqs.values[id][loc..loc + k])
  {
    var ws := AllWindows(seqs, k);
    IndexSelects(ws, seqs.values[id][loc..loc + k]);
    assert seqs.keys[..|seqs.keys|] == seqs.keys;
    var t := WindowsComplete(seqs, k, |seqs.keys|, id, loc);
    SelectHas(ws, t);
  }

  /** Exactly once: no list of the table holds a pair twice. */
  lemma KmerTableNoRepeat(seqs: ODict<string, string>, k: nat, kmer: string)
    requires seqs.Valid()
    ensures var l := Lookup(Index(AllWindows(seqs, k)), kmer);
      forall a, b :: 0 <= a < b < |l| ==> l[a] != l[b]
  {
    var ws := AllWindows(seqs, k);
    IndexSelects(ws, kmer);
    WindowsOrdered(seqs, k, |seqs.keys|);
    SelectOrdered(ws, kmer);
    OrderedDistinct(Select(ws, kmer));
  }

  /** The number of windows: max(0, len - k + 1) summed over the sequences. */
  function WindowTotal(seqs: ODict<string, string>, k: nat, n: nat): nat
    requires seqs.Valid() && n <= |seqs.keys|
  {
    if n == 0 then 0 else WindowTotal(seqs, k, n - 1) + WindowCount(seqs.values[seqs.keys[n - 1]], k)
  }

  /** The lengths of the lists under the given keys, added up. */
  function ListTotal(keys: seq<string>, m: map<string, seq<Hit>>): nat
  {
    if keys == [] then 0
    else ListTotal(keys[..|keys| - 1], m) + (if keys[|keys| - 1] in m then |m[keys[|keys| - 1]]| else 0)
  }

  lemma {:induction false} ListTotalOther(keys: seq<string>, m: map<string, seq<Hit>>, kmer: string, l: seq<Hit>)
    requires kmer !in keys
    ensures ListTotal(keys, m[kmer := l]) == ListTotal(keys, m)
  {
    if keys != [] {
      ListTotalOther(keys[..|keys| - 1], m, kmer, l);
    }
  }

  lemma {:induction false} ListTotalGrow(keys: seq<string>, m: map<string, seq<Hit>>, kmer: string, h: Hit)
    requires kmer in m && kmer in keys
    requires forall a, b :: 0 <= a < b < |keys| ==> keys[a] != keys[b]
    ensures ListTotal(keys, m[kmer := m[kmer] + [h]]) == ListTotal(keys, m) + 1
  {
    var rest := keys[..|keys| - 1];
    if keys[|keys| - 1] == kmer {
      assert kmer !in rest;
      ListTotalOther(rest, m, kmer, m[kmer] + [h]);
    } else {
      ListTotalGrow(rest, m, kmer, h);
    }
  }

  lemma ListTotalSnoc(keys: seq<string>, m: map<string, seq<Hit>>, kmer: string)
    requires kmer in m
    ensures ListTotal(keys + [kmer], m) == ListTotal(keys, m) + |m[kmer]|
  {
    assert (keys + [kmer])[..|keys|] == keys;
  }

  /** Filing n windows puts n entries in the table. */
  lemma {:induction false} IndexTotal(ws: seq<Window>)
    ensures ListTotal(Index(ws).keys, Index(ws).values) == |ws|
  {
    if ws != [] {
      var rest := ws[..|ws| - 1];
      var w := ws[|ws| - 1];
      IndexTotal(rest);
      var d := Index(rest);
      var r := Index(ws);
      assert r == File(d, w);
      if w.0 in d.values {
        assert r.keys == d.keys && r.values == d.values[w.0 := d.values[w.0] + [w.1]];
        ListTotalGrow(d.keys, d.values, w.0, w.1);
      } else {
        assert Lookup(d, w.0) + [w.1] == [w.1];
        assert r.keys == d.keys + [w.0] && r.values == d.values[w.0 := [w.1]];
        assert w.0 !in d.keys;
        ListTotalOther(d.keys, d.values, w.0, [w.1]);
        ListTotalSnoc(d.keys, d.values[w.0 := [w.1]], w.0);
      }
    }
  }

  lemma {:induction false} WindowsLength(seqs: ODict<string, string>, k: nat, n: nat)
    requires seqs.Valid() && n <= |seqs.keys|
    ensures |Windows(seqs, k, n)| == WindowTotal(seqs, k, n)
  {
    if n > 0 {
      WindowsLength(seqs, k, n - 1);
    }
  }

  /** The table holds one entry per window: the sum of max(0, len - k + 1)
      over the sequences. A sequence shorter than k adds nothing. */
  lemma KmerTableTotal(seqs: ODict<string, string>, k: nat)
    requires seqs.Valid()
    ensures var table := Index(AllWindows(seqs, k));
      ListTotal(table.keys, table.values) == WindowTotal(seqs, k, |seqs.keys|)
  {
    IndexTotal(AllWindows(seqs, k));
    WindowsLength(seqs, k, |seqs.keys|);
  }

  /** Every key of the table is k residues long and maps to a non-empty
      list. */
  lemma KmerTableKeys(seqs: ODict<string, string>, k: nat, kmer: string)
    requires seqs.Valid() && kmer in Index(AllWindows(seqs, k)).values
    ensures |kmer| == k && Index(AllWindows(seqs, k)).values[kmer] != []
  {
    var ws := AllWindows(seqs, k);
    IndexSelects(ws, kmer);
    var h := Select(ws, kmer)[0];
    KmerTableSound(seqs, k, kmer, h);
  }

  /** Within one key's list, two hits from the same sequence come by
      increasing offset. (The list as a whole follows the order the windows
      were met in: see IndexSelects.) */
  lemma KmerTableOrder(seqs: ODict<string, string>, k: nat, kmer: string, a: nat, b: nat)
    requires seqs.Valid() && a < b < |Lookup(Index(AllWindows(seqs, k)), kmer)|
    ensures var l := Lookup(Index(AllWindows(seqs, k)), kmer);
      l[a].0 == l[b].0 ==> l[a].1 < l[b].1
  {
    var ws := AllWindows(seqs, k);
    IndexSelects(ws, kmer);
    WindowsOrdered(seqs, k, |seqs.keys|);
    SelectOrdered(ws, kmer);
  }

  /** Two windows of the same sequence come by increasing offset. */
  ghost predicate Ordered(hs: seq<Hit>)
  {
    forall a, b :: 0 <= a < b < |hs| && hs[a].0 == hs[b].0 ==> hs[a].1 < hs[b].1
  }

  function HitsOf(ws: seq<Window>): (r: seq<Hit>)
    ensures |r| == |ws| && forall t :: 0 <= t < |ws| ==> r[t] == ws[t].1
  {
    seq(|ws|, t requires 0 <= t < |ws| => ws[t].1)
  }

  lemma {:induction false} WindowsOrdered(seqs: ODict<string, string>, k: nat, n: nat)
    requires seqs.Valid() && n <= |seqs.keys|
    ensures Ordered(HitsOf(Windows(seqs, k, n)))
  {
    if n > 0 {
      WindowsOrdered(seqs, k, n - 1);
      var rest := Windows(seqs, k, n - 1);
      var id := seqs.keys[n - 1];
      var ws := Windows(seqs, k, n);
      assert id !in seqs.keys[..n - 1];
      forall a | 0 <= a < |rest|
        ensures rest[a].1.0 != id
      {
        WindowsSound(seqs, k, n - 1, a);
      }
    }
  }

  lemma {:induction false} SelectOrdered(ws: seq<Window>, kmer: string)
    requires Ordered(HitsOf(ws))
    ensures Ordered(Select(ws, kmer))
  {
    if ws != [] {
      var rest := ws[..|ws| - 1];
      assert HitsOf(rest) == HitsOf(ws)[..|rest|];
      SelectOrdered(rest, kmer);
      if ws[|ws| - 1].0 == kmer {
        var l := Select(ws, kmer);
        forall a | 0 <= a < |l| - 1 && l[a].0 == l[|l| - 1].0
          ensures l[a].1 < l[|l| - 1].1
        {
          var t := SelectFrom(rest, kmer, l[a]);
        }
      }
    }
  }
}
