/** The line-by-line state machine of every `parse_fasta` in the repository
    (6tbsps-build.py, scripts/file_io.py, scripts/read_simulator.py,
    scripts/SixFrame_translation.py), over the lines `readline` returns: each
    line non-empty and still carrying its line break. The copies differ only in
    how a header line becomes an id. */
module Fasta {
  import opened Wrappers
  import opened Text
  import opened OrderedMap

  predicate IsHeader(line: string)
  {
    |line| > 0 && line[0] == '>'
  }

  /** How a copy turns a header line into an id. */
  datatype HeaderRule =
    | /** `line.rstrip()`, keeping the '>' (6tbsps-build.py). */
      StripLine
    | /** `line[1:].rstrip()` (scripts/file_io.py, scripts/read_simulator.py). */
      StripAfterMarker
    | /** `line.rstrip()[1:]` (scripts/SixFrame_translation.py). */
      MarkerAfterStrip

  function HeaderId(rule: HeaderRule, line: string): string
    requires IsHeader(line)
  {
    match rule
    case StripLine => RStrip(line)
    case StripAfterMarker => RStrip(line[1..])
    case MarkerAfterStrip => Drop(RStrip(line), 1)
  }

  /** Dropping the '>' before or after stripping gives the same id, and the
      id that keeps the '>' is that id with '>' in front. */
  lemma {:induction false} HeaderRulesAgree(line: string)
    requires IsHeader(line)
    ensures HeaderId(MarkerAfterStrip, line) == HeaderId(StripAfterMarker, line)
    ensures HeaderId(StripLine, line) == ['>'] + HeaderId(StripAfterMarker, line)
  {
    if |line| > 1 && IsSpace(line[|line| - 1]) {
      var shorter := line[..|line| - 1];
      assert line[1..][..|line[1..]| - 1] == shorter[1..];
      HeaderRulesAgree(shorter);
    } else if |line| > 1 {
      assert line[1..][|line[1..]| - 1] == line[|line| - 1];
    } else {
      assert RStrip(line) == line;
    }
  }

  /** Why a `parse_fasta` fails. */
  datatype FastaError =
    /** A sequence line before any header: the sequence variable it appends
        to is not yet bound. */
    Unbound

  /** The loop's variables: the dictionary, the current id (`None` before the
      first header) and the sequence of the current record. */
  datatype State = State(dict: ODict<string, string>, id: Option<string>, body: string)

  /** The right-stripped lines, concatenated. */
  function Joined(body: seq<string>): string
  {
    if body == [] then [] else Joined(body[..|body| - 1]) + RStrip(body[|body| - 1])
  }

  /** One pass of the loop body. */
  function Step(rule: HeaderRule, st: State, line: string): (r: Result<State, FastaError>)
    requires st.dict.Valid() && |line| > 0
    ensures r.Success? ==> r.value.dict.Valid()
  {
    if IsHeader(line) then
      var id := HeaderId(rule, line);
      Success(State(Put(st.dict, id, []), Some(id), []))
    else if st.id.None? then
      Failure(Unbound)
    else
      var sq := st.body + RStrip(line);
      Success(State(Put(st.dict, st.id.value, sq), st.id, sq))
  }

  predicate AllNonEmpty(lines: seq<string>)
  {
    forall k :: 0 <= k < |lines| ==> |lines[k]| > 0
  }

  /** The state after the loop has read `lines`, starting from the caller's
      dictionary `d0`. */
  function Parsed(rule: HeaderRule, d0: ODict<string, string>, lines: seq<string>): (r: Result<State, FastaError>)
    requires d0.Valid() && AllNonEmpty(lines)
    ensures r.Success? ==> r.value.dict.Valid()
  {
    if lines == [] then Success(State(d0, None, []))
    else match Parsed(rule, d0, lines[..|lines| - 1])
      case Failure(e) => Failure(e)
      case Success(st) => Step(rule, st, lines[|lines| - 1])
  }

  function ParsedDict(rule: HeaderRule, d0: ODict<string, string>, lines: seq<string>): Result<ODict<string, string>, FastaError>
    requires d0.Valid() && AllNonEmpty(lines)
  {
    match Parsed(rule, d0, lines)
    case Success(st) => Success(st.dict)
    case Failure(e) => Failure(e)
  }

  /** Once the loop has failed, reading more lines does not undo it. */
  lemma {:induction false} ParsedFailureStays(rule: HeaderRule, d0: ODict<string, string>, lines: seq<string>, n: nat)
    requires d0.Valid() && AllNonEmpty(lines) && n <= |lines|
    requires Parsed(rule, d0, lines[..n]).Failure?
    ensures Parsed(rule, d0, lines).Failure?
    decreases |lines| - n
  {
    if n < |lines| {
      assert lines[..n + 1][..n] == lines[..n];
      ParsedFailureStays(rule, d0, lines, n + 1);
    } else {
      assert lines[..n] == lines;
    }
  }

  /** `parse_fasta`: the readline loop, adding records into the dictionary
      `d0` it was given and returning the dictionary it leaves behind. */
  method ParseFasta(rule: HeaderRule, lines: seq<string>, d0: ODict<string, string>)
    returns (r: Result<ODict<string, string>, FastaError>)
    requires d0.Valid() && AllNonEmpty(lines)
    ensures r == ParsedDict(rule, d0, lines)
  {
    var dict := d0;
    var id: Option<string> := None;
    var sq: string := [];
    for n := 0 to |lines|
      invariant Parsed(rule, d0, lines[..n]) == Success(State(dict, id, sq))
    {
      assert lines[..n + 1][..n] == lines[..n];
      var line := lines[n];
      if line[0] == '>' {
        id := Some(HeaderId(rule, line));
        sq := [];
      } else {
        if id.None? {
          assert lines[..n + 1][n] == line && !IsHeader(line);
          assert Parsed(rule, d0, lines[..n + 1]) == Step(rule, State(dict, id, sq), line);
          ParsedFailureStays(rule, d0, lines, n + 1);
          assert Parsed(rule, d0, lines).error.Unbound?;
          return Failure(Unbound);
        }
        sq := sq + RStrip(line);
      }
      dict := Put(dict, id.value, sq);
    }
    assert lines[..|lines|] == lines;
    r := Success(dict);
  }

  /** The loop fails exactly when the first line is not a header. */
  lemma {:induction false} ParsedFails(rule: HeaderRule, d0: ODict<string, string>, lines: seq<string>)
    requires d0.Valid() && AllNonEmpty(lines) && lines != []
    ensures Parsed(rule, d0, lines).Failure? <==> !IsHeader(lines[0])
    ensures IsHeader(lines[0]) ==> Parsed(rule, d0, lines).value.id.Some?
  {
    if |lines| == 1 {
    } else {
      var init := lines[..|lines| - 1];
      assert init[0] == lines[0];
      ParsedFails(rule, d0, init);
    }
  }

  /** After every line the current id maps to the sequence read so far, so a
      header with no sequence lines maps to the empty string. */
  lemma {:induction false} ParsedCurrent(rule: HeaderRule, d0: ODict<string, string>, lines: seq<string>)
    requires d0.Valid() && AllNonEmpty(lines)
    requires Parsed(rule, d0, lines).Success?
    ensures var st := Parsed(rule, d0, lines).value;
      st.id.Some? ==> st.id.value in st.dict.values && st.dict.values[st.id.value] == st.body
  {
  }

  /** The record opened by the last header holds that header's id and the
      right-stripped lines after it, concatenated; an id repeated earlier in
      the file is overwritten by it. */
  lemma {:induction false} ParsedLastRecord(rule: HeaderRule, d0: ODict<string, string>, lines: seq<string>, h: nat)
    requires d0.Valid() && AllNonEmpty(lines)
    requires h < |lines| && IsHeader(lines[h])
    requires forall k :: h < k < |lines| ==> !IsHeader(lines[k])
    requires Parsed(rule, d0, lines).Success?
    ensures var st := Parsed(rule, d0, lines).value;
      && st.id == Some(HeaderId(rule, lines[h]))
      && st.body == Joined(lines[h + 1..])
      && HeaderId(rule, lines[h]) in st.dict.values
      && st.dict.values[HeaderId(rule, lines[h])] == Joined(lines[h + 1..])
  {
    ParsedSnoc(rule, d0, lines);
    if h == |lines| - 1 {
      assert lines[h + 1..] == [];
    } else {
      ParsedLastRecord(rule, d0, lines[..|lines| - 1], h);
      JoinedSnoc(lines, h);
    }
  }

  /** A successful parse of a non-empty file is one step after a successful
      parse of all its lines but the last. */
  lemma ParsedSnoc(rule: HeaderRule, d0: ODict<string, string>, lines: seq<string>)
    requires d0.Valid() && AllNonEmpty(lines) && lines != []
    requires Parsed(rule, d0, lines).Success?
    ensures Parsed(rule, d0, lines[..|lines| - 1]).Success?
    ensures Parsed(rule, d0, lines) == Step(rule, Parsed(rule, d0, lines[..|lines| - 1]).value, lines[|lines| - 1])
  {
  }

  lemma JoinedSnoc(lines: seq<string>, h: nat)
    requires h + 1 < |lines|
    ensures Joined(lines[h + 1..]) == Joined(lines[..|lines| - 1][h + 1..]) + RStrip(lines[|lines| - 1])
  {
    assert lines[h + 1..][..|lines[h + 1..]| - 1] == lines[..|lines| - 1][h + 1..];
  }

  /** A key that no header of the file names keeps its presence and value in
      the caller's dictionary. */
  lemma {:induction false} ParsedUntouched(rule: HeaderRule, d0: ODict<string, string>, lines: seq<string>, key: string)
    requires d0.Valid() && AllNonEmpty(lines)
    requires Parsed(rule, d0, lines).Success?
    requires forall k :: 0 <= k < |lines| && IsHeader(lines[k]) ==> HeaderId(rule, lines[k]) != key
    ensures var st := Parsed(rule, d0, lines).value;
      && st.id != Some(key)
      && (key in st.dict.values <==> key in d0.values)
      && (key in d0.values ==> st.dict.values[key] == d0.values[key])
  {
    if lines != [] {
      var init := lines[..|lines| - 1];
      ParsedUntouched(rule, d0, init, key);
      var st := Parsed(rule, d0, init).value;
      var line := lines[|lines| - 1];
      if IsHeader(line) {
        PutOthers(st.dict, HeaderId(rule, line), [], key);
      } else {
        PutOthers(st.dict, st.id.value, st.body + RStrip(line), key);
      }
    }
  }
}
