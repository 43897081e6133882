/** String helpers shared by the models: Python's `str.rstrip()`, `s[::-1]`,
    Python slicing that clamps instead of failing, and `'%d' % n`. */
module Text {

  /** The characters for which Python's `str.isspace()` holds (all of them are
      removed by `str.rstrip()` with no argument). */
  predicate IsSpace(c: char)
  {
    c == ' ' || c == '\t' || c == '\n' || c == '\r' || c == '\U{B}' || c == '\U{C}'
    || ('\U{1C}' <= c <= '\U{1F}') || c == '\U{85}' || c == '\U{A0}' || c == '\U{1680}'
    || ('\U{2000}' <= c <= '\U{200A}') || c == '\U{2028}' || c == '\U{2029}' || c == '\U{202F}'
    || c == '\U{205F}' || c == '\U{3000}'
  }

  /** Python `s.rstrip()`: the longest prefix of `s` that does not end in white space. */
  function RStrip(s: string): (r: string)
    ensures |r| <= |s| && r == s[..|r|]
    ensures r == [] || !IsSpace(r[|r| - 1])
    ensures forall k :: |r| <= k < |s| ==> IsSpace(s[k])
  {
    if s == [] || !IsSpace(s[|s| - 1]) then s else RStrip(s[..|s| - 1])
  }

  /** Python `s[::-1]`. */
  function Reverse<T>(s: seq<T>): (r: seq<T>)
    ensures |r| == |s|
    ensures forall k :: 0 <= k < |s| ==> r[k] == s[|s| - 1 - k]
  {
    if s == [] then [] else Reverse(s[1..]) + [s[0]]
  }

  lemma ReverseReverse<T>(s: seq<T>)
    ensures Reverse(Reverse(s)) == s
  {
    var r := Reverse(Reverse(s));
    assert |r| == |s|;
    forall k | 0 <= k < |s| ensures r[k] == s[k] { }
  }

  lemma ReverseAppend<T>(s: seq<T>, t: seq<T>)
    ensures Reverse(s + t) == Reverse(t) + Reverse(s)
  {
    var a, b := Reverse(s + t), Reverse(t) + Reverse(s);
    assert |a| == |b|;
    forall k | 0 <= k < |a| ensures a[k] == b[k] {
      if k < |t| { assert a[k] == (s + t)[|s| + |t| - 1 - k]; }
    }
  }

  /** Appending after a snoc is prepending to the tail. */
  lemma SnocCons<T>(a: seq<T>, c: T, d: seq<T>)
    ensures a + [c] + d == a + ([c] + d)
  {
  }

  /** Applies f to every element, as `map` does. */
  function Map<A, B>(s: seq<A>, f: A -> B): (r: seq<B>)
    ensures |r| == |s| && forall k :: 0 <= k < |s| ==> r[k] == f(s[k])
  {
    seq(|s|, k requires 0 <= k < |s| => f(s[k]))
  }

  /** `r` holds f of the elements of `done` in reverse order: a row built by
      appending at its end while `done` grows at its front. */
  predicate ReversedMap<A, B(==)>(done: seq<A>, r: seq<B>, f: A -> B)
  {
    |r| == |done| && forall k :: 0 <= k < |done| ==> r[k] == f(done[|done| - 1 - k])
  }

  lemma ReversedMapStep<A, B>(done: seq<A>, r: seq<B>, f: A -> B, c: A)
    requires ReversedMap(done, r, f)
    ensures ReversedMap([c] + done, r + [f(c)], f)
  {
  }

  /** Reversing such a row at the end gives f of `done` in order. */
  lemma ReversedMapRender<A, B>(done: seq<A>, r: seq<B>, f: A -> B)
    requires ReversedMap(done, r, f)
    ensures Reverse(r) == Map(done, f)
  {
  }

  /** Python `s[n:]`, which is empty when `n` is past the end. */
  function Drop<T>(s: seq<T>, n: nat): (r: seq<T>)
    ensures |s| <= n ==> r == []
    ensures n < |s| ==> r == s[n..]
  {
    if n <= |s| then s[n..] else []
  }

  /** Python `s[a:b]` for `0 <= a`, clamped at the end of `s`. */
  function Slice<T>(s: seq<T>, a: nat, b: nat): (r: seq<T>)
    ensures a <= b <= |s| ==> r == s[a..b]
    ensures |r| == if a <= b && a <= |s| then (if b <= |s| then b else |s|) - a else 0
  {
    var hi := if b <= |s| then b else |s|;
    if a <= hi then s[a..hi] else []
  }

  function DigitChar(d: nat): (c: char)
    requires d < 10
    ensures '0' <= c <= '9' && (c as int) - ('0' as int) == d
  {
    (('0' as int) + d) as char
  }

  /** Python `'%d' % n` for a non-negative `n`: its decimal digits, most significant first. */
  function Decimal(n: nat): (r: string)
    ensures 1 <= |r|
    ensures forall k :: 0 <= k < |r| ==> '0' <= r[k] <= '9'
    ensures |r| > 1 ==> r[0] != '0'
  {
    if n < 10 then [DigitChar(n)] else Decimal(n / 10) + [DigitChar(n % 10)]
  }

  /** The value of a string of decimal digits. */
  function DigitsValue(s: string): nat
    requires forall k :: 0 <= k < |s| ==> '0' <= s[k] <= '9'
  {
    if s == [] then 0 else 10 * DigitsValue(s[..|s| - 1]) + ((s[|s| - 1] as int) - ('0' as int))
  }

  /** `Decimal` loses nothing: reading the digits back gives the number. */
  lemma {:induction false} DecimalValue(n: nat)
    ensures DigitsValue(Decimal(n)) == n
  {
    var d := Decimal(n);
    if n < 10 {
      assert d[..0] == [];
    } else {
      DecimalValue(n / 10);
      assert d[..|d| - 1] == Decimal(n / 10);
      assert d[|d| - 1] == DigitChar(n % 10);
      assert n == 10 * (n / 10) + n % 10;
    }
  }
}
