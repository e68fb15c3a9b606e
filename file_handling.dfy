/**
 * The line-processing logic of `read_fasta`: the file is given as the
 * sequence of lines it was read into (trailing newlines included).
 */
module FileHandling {
  import opened Wrappers

  // ---------------------------------------------------------------------
  // str.strip() and str.split('|')
  // ---------------------------------------------------------------------

  /** The characters `str.isspace()` accepts, which `str.strip()` removes. */
  predicate IsSpace(c: char) {
    || c == ' ' || '\t' <= c <= '\r' || '\U{1C}' <= c <= '\U{1F}'
    || c == '\U{85}' || c == '\U{A0}' || c == '\U{1680}' || '\U{2000}' <= c <= '\U{200A}'
    || c == '\U{2028}' || c == '\U{2029}' || c == '\U{202F}' || c == '\U{205F}' || c == '\U{3000}'
  }

  /** `s` with its leading whitespace removed. */
  function StripStart(s: string): (r: string)
    ensures |r| <= |s| && r == s[|s| - |r|..]
    ensures forall i :: 0 <= i < |s| - |r| ==> IsSpace(s[i])
    ensures r == [] || !IsSpace(r[0])
  {
    if s != [] && IsSpace(s[0]) then StripStart(s[1..]) else s
  }

  /** `s` with its trailing whitespace removed. */
  function StripEnd(s: string): (r: string)
    ensures |r| <= |s| && r == s[..|r|]
    ensures forall i :: |r| <= i < |s| ==> IsSpace(s[i])
    ensures r == [] || !IsSpace(r[|r| - 1])
  {
    if s != [] && IsSpace(s[|s| - 1]) then StripEnd(s[..|s| - 1]) else s
  }

  /**
   * `s.strip()`: the text between the leading and the trailing whitespace.
   * It is empty exactly when `s` is all whitespace.
   */
  function Strip(s: string): (r: string)
    ensures r == [] <==> forall i :: 0 <= i < |s| ==> IsSpace(s[i])
    ensures r != [] ==> !IsSpace(r[0]) && !IsSpace(r[|r| - 1])
    ensures |r| <= |s|
  {
    var t := StripStart(s);
    var r := StripEnd(t);
    assert r != [] ==> r[0] == t[0];
    r
  }

  /** Every character of `t` is whitespace. */
  predicate AllSpace(t: string) {
    forall i :: 0 <= i < |t| ==> IsSpace(t[i])
  }

  /** Leading whitespace before a text that starts with a non-space is what `StripStart` drops. */
  lemma {:induction false} StripStartSkips(a: string, u: string)
    requires AllSpace(a) && u != [] && !IsSpace(u[0])
    ensures StripStart(a + u) == u
    decreases |a|
  {
    if a == [] {
      assert a + u == u;
    } else {
      assert (a + u)[1..] == a[1..] + u;
      assert AllSpace(a[1..]) by {
        forall i | 0 <= i < |a[1..]| ensures IsSpace(a[1..][i]) {
          assert a[1..][i] == a[i + 1];
        }
      }
      StripStartSkips(a[1..], u);
    }
  }

  /** Trailing whitespace after a text that ends with a non-space is what `StripEnd` drops. */
  lemma {:induction false} StripEndSkips(u: string, b: string)
    requires AllSpace(b) && u != [] && !IsSpace(u[|u| - 1])
    ensures StripEnd(u + b) == u
    decreases |b|
  {
    if b == [] {
      assert u + b == u;
    } else {
      var n := |b| - 1;
      assert (u + b)[..|u + b| - 1] == u + b[..n];
      assert AllSpace(b[..n]) by {
        forall i | 0 <= i < n ensures IsSpace(b[..n][i]) {
          assert b[..n][i] == b[i];
        }
      }
      StripEndSkips(u, b[..n]);
    }
  }

  /** `StripStart` drops a whitespace prefix. */
  lemma StripStartPart(s: string) returns (a: string)
    ensures AllSpace(a) && s == a + StripStart(s)
  {
    a := s[..|s| - |StripStart(s)|];
    forall i | 0 <= i < |a| ensures IsSpace(a[i]) {
      assert a[i] == s[i];
    }
  }

  /** `StripEnd` drops a whitespace suffix. */
  lemma StripEndPart(t: string) returns (b: string)
    ensures AllSpace(b) && t == StripEnd(t) + b
  {
    var r := StripEnd(t);
    b := t[|r|..];
    forall i | 0 <= i < |b| ensures IsSpace(b[i]) {
      assert b[i] == t[|r| + i];
    }
  }

  /** The whitespace prefix and suffix that `Strip` removes. */
  lemma StripParts(s: string) returns (a: string, b: string)
    ensures AllSpace(a) && AllSpace(b) && s == a + Strip(s) + b
  {
    var t := StripStart(s);
    a := StripStartPart(s);
    b := StripEndPart(t);
    Regroup(s, a, t, StripEnd(t), b);
  }

  lemma Regroup(s: string, a: string, t: string, r: string, b: string)
    requires s == a + t && t == r + b
    ensures s == a + r + b
  {
  }

  /**
   * `Strip(s)` is `s` with a whitespace prefix and a whitespace suffix
   * removed: the input is recovered by putting them back.
   */
  lemma StripMeaning(s: string)
    ensures exists a, b :: AllSpace(a) && AllSpace(b) && s == a + Strip(s) + b
  {
    var a, b := StripParts(s);
  }

  /**
   * Conversely, any split of `s` into whitespace, a text with non-space
   * ends (or no text), and whitespace has `Strip(s)` as its middle part.
   */
  lemma StripUnique(s: string, a: string, r: string, b: string)
    requires AllSpace(a) && AllSpace(b) && s == a + r + b
    requires r == [] || (!IsSpace(r[0]) && !IsSpace(r[|r| - 1]))
    ensures Strip(s) == r
  {
    if r == [] {
      assert forall i :: 0 <= i < |s| ==> IsSpace(s[i]) by {
        forall i | 0 <= i < |s| ensures IsSpace(s[i]) {
          if i < |a| {
            assert s[i] == a[i];
          } else {
            assert s[i] == b[i - |a|];
          }
        }
      }
    } else {
      assert s == a + (r + b);
      StripStartSkips(a, r + b);
      StripEndSkips(r, b);
    }
  }

  /** The fields of `s` between the separators (the inverse of `JoinWith`). */
  function JoinWith(fields: seq<string>, sep: char): string
    requires |fields| >= 1
  {
    if |fields| == 1 then fields[0] else fields[0] + [sep] + JoinWith(fields[1..], sep)
  }

  /** `s.split(sep)`: the fields between the separators, never none. */
  function SplitOn(s: string, sep: char): (fields: seq<string>)
    ensures |fields| >= 1
    decreases |s|
  {
    if s == [] then [""]
    else
      var rest := SplitOn(s[1..], sep);
      if s[0] == sep then [""] + rest
      else [[s[0]] + rest[0]] + rest[1..]
  }

  /**
   * What `split` promises: no field holds the separator, joining the fields
   * with it gives `s` back, and there is a single field exactly when the
   * separator does not occur.
   */
  lemma {:induction false} SplitOnSpec(s: string, sep: char)
    ensures forall f :: f in SplitOn(s, sep) ==> sep !in f
    ensures JoinWith(SplitOn(s, sep), sep) == s
    ensures |SplitOn(s, sep)| == 1 <==> sep !in s
    decreases |s|
  {
    if s != [] {
      var rest := SplitOn(s[1..], sep);
      SplitOnSpec(s[1..], sep);
      assert s == [s[0]] + s[1..];
      if s[0] != sep {
        var fields := [[s[0]] + rest[0]] + rest[1..];
        assert fields[1..] == rest[1..];
        assert sep !in [s[0]] + rest[0] by {
          assert rest[0] in rest;
        }
      }
    }
  }

  // ---------------------------------------------------------------------
  // What one line is to the loop
  // ---------------------------------------------------------------------

  /**
   * A line as the loop sees it after `line.strip()`: blank, a header (with
   * the `|`-separated fields of the stripped line), or sequence text.
   */
  datatype LineKind = Blank | Header(fields: seq<string>) | Residues(text: string)

  function Classify(line: string): LineKind {
    var stripped := Strip(line);
    if stripped == [] then Blank
    else if stripped[0] == '>' then Header(SplitOn(stripped, '|'))
    else Residues(stripped)
  }

  /**
   * A line is blank exactly when it is all whitespace, and it is a header
   * that raises exactly when its stripped text starts with `>` and holds no `|`.
   */
  lemma ClassifyMeaning(line: string)
    ensures Classify(line).Blank? <==> forall i :: 0 <= i < |line| ==> IsSpace(line[i])
    ensures IsBadHeader(Classify(line)) <==> var s := Strip(line); s != [] && s[0] == '>' && '|' !in s
  {
    SplitOnSpec(Strip(line), '|');
  }

  /** `f` applied to every element of `s`, in order. */
  function MapSeq<A, B>(f: A -> B, s: seq<A>): (r: seq<B>)
    ensures |r| == |s|
  {
    if s == [] then [] else MapSeq(f, s[..|s| - 1]) + [f(s[|s| - 1])]
  }

  lemma {:induction false} MapSeqAt<A, B>(f: A -> B, s: seq<A>, i: nat)
    requires i < |s|
    ensures MapSeq(f, s)[i] == f(s[i])
    decreases |s|
  {
    var n := |s| - 1;
    if i < n {
      assert s[..n][i] == s[i];
      MapSeqAt(f, s[..n], i);
    }
  }

  lemma {:induction false} MapSeqAppend<A, B>(f: A -> B, a: seq<A>, b: seq<A>)
    ensures MapSeq(f, a + b) == MapSeq(f, a) + MapSeq(f, b)
    decreases |b|
  {
    if b == [] {
      assert a + b == a;
    } else {
      var n := |b| - 1;
      assert (a + b)[..|a + b| - 1] == a + b[..n];
      assert (a + b)[|a + b| - 1] == b[n];
      MapSeqAppend(f, a, b[..n]);
    }
  }

  /** The kind of every line, in order. */
  function Kinds(lines: seq<string>): (ks: seq<LineKind>)
    ensures |ks| == |lines|
  {
    MapSeq(Classify, lines)
  }

  /** Line `i` has the kind `Classify` gives it. */
  lemma KindsAt(lines: seq<string>, i: nat)
    requires i < |lines|
    ensures Kinds(lines)[i] == Classify(lines[i])
  {
    MapSeqAt(Classify, lines, i);
  }

  /** A header line with no second field: `split('|')[1]` raises on it. */
  predicate IsBadHeader(k: LineKind) {
    k.Header? && |k.fields| < 2
  }

  /** The id a line sets, if it is a header with a second field. */
  function IdOf(k: LineKind): Option<string> {
    if k.Header? && |k.fields| >= 2 then Some(k.fields[1]) else None
  }

  // ---------------------------------------------------------------------
  // The state of the line loop
  // ---------------------------------------------------------------------

  /** `''.join(parts)`. */
  function Join(parts: seq<string>): string {
    if parts == [] then [] else Join(parts[..|parts| - 1]) + parts[|parts| - 1]
  }

  /** The message of the `IndexError` raised by `stripped.split('|')[1]` on a header without `|`. */
  const IndexErrorMessage: string := "list index out of range"

  /** The loop's variables: `protein_map`, `current_id`, `current_sequence`. */
  datatype FastaState = FastaState(proteinMap: map<string, string>, currentId: Option<string>, currentSequence: seq<string>)

  const Start: FastaState := FastaState(map[], None, [])

  /** `protein_map` with the record in progress written into it, if there is one. */
  function Flushed(st: FastaState): (r: map<string, string>)
    ensures st.currentId.None? ==> r == st.proteinMap
    ensures st.currentId.Some? ==>
      r.Keys == st.proteinMap.Keys + {st.currentId.value} && r[st.currentId.value] == Join(st.currentSequence)
  {
    if st.currentId.Some? then st.proteinMap[st.currentId.value := Join(st.currentSequence)] else st.proteinMap
  }

  /** One iteration of the loop over lines. */
  function Step(st: FastaState, k: LineKind): (r: Result<FastaState>)
    ensures r.Err? <==> k.Header? && |k.fields| < 2
    ensures r.Ok? && k.Header? ==> r.value.currentId == Some(k.fields[1])
    ensures r.Ok? && !k.Header? ==> r.value.proteinMap == st.proteinMap && r.value.currentId == st.currentId
  {
    match k
    case Blank => Ok(st)
    case Header(fields) =>
      if |fields| < 2 then Err(IndexErrorMessage)
      else Ok(FastaState(Flushed(st), Some(fields[1]), if st.currentId.Some? then [] else st.currentSequence))
    case Residues(text) => Ok(st.(currentSequence := st.currentSequence + [text]))
  }

  /** The loop run over lines of kinds `ks` from state `st`; an error ends it. */
  function ScanFrom(st: Result<FastaState>, ks: seq<LineKind>): Result<FastaState>
    decreases |ks|
  {
    if ks == [] then st
    else
      match ScanFrom(st, ks[..|ks| - 1])
      case Err(msg) => Err(msg)
      case Ok(s) => Step(s, ks[|ks| - 1])
  }

  function Scan(ks: seq<LineKind>): Result<FastaState> {
    ScanFrom(Ok(Start), ks)
  }

  /** What the loop returns for lines of kinds `ks`, or the error it raises. */
  function ParseKinds(ks: seq<LineKind>): Result<map<string, string>> {
    match Scan(ks)
    case Err(msg) => Err(msg)
    case Ok(st) => Ok(Flushed(st))
  }

  /** What `read_fasta` returns for a file of these lines, or the error it raises. */
  function ParseFasta(lines: seq<string>): Result<map<string, string>> {
    ParseKinds(Kinds(lines))
  }

  // ---------------------------------------------------------------------
  // read_fasta
  // ---------------------------------------------------------------------

  /** `read_fasta`, over the lines of the file. */
  method ReadFasta(lines: seq<string>) returns (r: Result<map<string, string>>)
    ensures r == ParseFasta(lines)
  {
    ghost var ks := Kinds(lines);
    var proteinMap: map<string, string> := map[];
    var currentId: Option<string> := None;
    var currentSequence: seq<string> := [];
    for i := 0 to |lines|
      invariant Scan(ks[..i]) == Ok(FastaState(proteinMap, currentId, currentSequence))
    {
      ScanSnoc(ks, i);
      KindsAt(lines, i);
      var stripped := Strip(lines[i]);
      if stripped == [] {
        continue;
      }
      if stripped[0] == '>' {
        if currentId.Some? {
          proteinMap := proteinMap[currentId.value := Join(currentSequence)];
          currentSequence := [];
        }
        var fields := SplitOn(stripped, '|');
        if |fields| < 2 {
          ScanAppend(Ok(Start), ks[..i + 1], ks[i + 1..]);
          ScanErrSticky(IndexErrorMessage, ks[i + 1..]);
          assert ks[..i + 1] + ks[i + 1..] == ks;
          return Err(IndexErrorMessage);
        }
        currentId := Some(fields[1]);
      } else {
        currentSequence := currentSequence + [stripped];
      }
    }
    assert ks[..|lines|] == ks;
    if currentId.Some? {
      proteinMap := proteinMap[currentId.value := Join(currentSequence)];
    }
    r := Ok(proteinMap);
  }

  // ---------------------------------------------------------------------
  // Properties of the parse
  // ---------------------------------------------------------------------

  /** Running the loop over `a + b` is running it over `a`, then over `b`. */
  lemma {:induction false} ScanAppend(st: Result<FastaState>, a: seq<LineKind>, b: seq<LineKind>)
    ensures ScanFrom(st, a + b) == ScanFrom(ScanFrom(st, a), b)
    decreases |b|
  {
    if b == [] {
      assert a + b == a;
    } else {
      ScanAppend(st, a, b[..|b| - 1]);
      assert (a + b)[..|a + b| - 1] == a + b[..|b| - 1];
    }
  }

  /** One more line is one more step of the loop. */
  lemma ScanSnoc(ks: seq<LineKind>, i: nat)
    requires i < |ks|
    ensures Scan(ks[..i + 1]) == if Scan(ks[..i]).Err? then Scan(ks[..i]) else Step(Scan(ks[..i]).value, ks[i])
  {
    assert ks[..i + 1][..i] == ks[..i];
  }

  /** Once an exception is raised, the remaining lines change nothing. */
  lemma {:induction false} ScanErrSticky(msg: string, b: seq<LineKind>)
    ensures ScanFrom(Err(msg), b) == Err(msg)
    decreases |b|
  {
    if b != [] {
      ScanErrSticky(msg, b[..|b| - 1]);
    }
  }

  predicate NoHeaders(ks: seq<LineKind>) {
    forall k :: 0 <= k < |ks| ==> !ks[k].Header?
  }

  /** The text of the sequence lines, in order (blank lines dropped). */
  function Texts(ks: seq<LineKind>): seq<string> {
    if ks == [] then []
    else Texts(ks[..|ks| - 1]) + (if ks[|ks| - 1].Residues? then [ks[|ks| - 1].text] else [])
  }

  /** The ids of all header lines, as a set. */
  function HeaderIds(ks: seq<LineKind>): set<string> {
    if ks == [] then {}
    else
      var n := |ks| - 1;
      HeaderIds(ks[..n]) + (if IdOf(ks[n]).Some? then {IdOf(ks[n]).value} else {})
  }

  /** `HeaderIds` holds the id of every header line, and nothing else. */
  lemma {:induction false} HeaderIdsMembers(ks: seq<LineKind>, x: string)
    ensures x in HeaderIds(ks) <==> exists k :: 0 <= k < |ks| && IdOf(ks[k]) == Some(x)
    decreases |ks|
  {
    if ks != [] {
      var n := |ks| - 1;
      HeaderIdsMembers(ks[..n], x);
      if exists k :: 0 <= k < n && IdOf(ks[..n][k]) == Some(x) {
        var k :| 0 <= k < n && IdOf(ks[..n][k]) == Some(x);
        assert ks[k] == ks[..n][k];
      }
      if exists k :: 0 <= k < |ks| && IdOf(ks[k]) == Some(x) {
        var k :| 0 <= k < |ks| && IdOf(ks[k]) == Some(x);
        if k < n {
          assert ks[..n][k] == ks[k];
        }
      }
    }
  }

  /** The ids after the first line are ids of the whole. */
  lemma HeaderIdsTail(ks: seq<LineKind>)
    requires ks != []
    ensures HeaderIds(ks[1..]) <= HeaderIds(ks)
    ensures IdOf(ks[0]).Some? ==> IdOf(ks[0]).value in HeaderIds(ks)
  {
    forall x | x in HeaderIds(ks[1..]) ensures x in HeaderIds(ks) {
      HeaderIdsMembers(ks[1..], x);
      var k :| 0 <= k < |ks| - 1 && IdOf(ks[1..][k]) == Some(x);
      assert IdOf(ks[k + 1]) == Some(x);
      HeaderIdsMembers(ks, x);
    }
    if IdOf(ks[0]).Some? {
      HeaderIdsMembers(ks, IdOf(ks[0]).value);
    }
  }

  /**
   * Failure: the loop raises exactly when some header line has no second
   * `|`-separated field, wherever it stands, and then with `IndexError`.
   */
  lemma {:induction false} ParseKindsFails(ks: seq<LineKind>)
    ensures ParseKinds(ks).Err? <==> exists k :: 0 <= k < |ks| && IsBadHeader(ks[k])
    ensures ParseKinds(ks).Err? ==> ParseKinds(ks).error == IndexErrorMessage
    decreases |ks|
  {
    if ks != [] {
      var n := |ks| - 1;
      var p := ks[..n];
      ParseKindsFails(p);
      ScanSnoc(ks, n);
      assert ks[..n + 1] == ks;
      if exists k :: 0 <= k < |p| && IsBadHeader(p[k]) {
        var k :| 0 <= k < |p| && IsBadHeader(p[k]);
        assert ks[k] == p[k];
      }
      if exists k :: 0 <= k < |ks| && IsBadHeader(ks[k]) {
        var k :| 0 <= k < |ks| && IsBadHeader(ks[k]);
        if k < n {
          assert p[k] == ks[k];
        }
      }
    }
  }

  /**
   * What the loop state says about the lines read so far: no record is open
   * exactly when no header was seen, and then the sequence lines seen are
   * all buffered; the ids written or open are the ids of the headers seen.
   */
  lemma {:induction false} ScanShape(ks: seq<LineKind>)
    requires Scan(ks).Ok?
    ensures var st := Scan(ks).value;
      && (st.currentId.None? <==> NoHeaders(ks))
      && (st.currentId.None? ==> st.proteinMap == map[] && st.currentSequence == Texts(ks))
      && st.proteinMap.Keys + (if st.currentId.Some? then {st.currentId.value} else {}) == HeaderIds(ks)
    decreases |ks|
  {
    if ks != [] {
      var n := |ks| - 1;
      var p := ks[..n];
      ScanSnoc(ks, n);
      assert ks[..n + 1] == ks;
      ScanShape(p);
      if !ks[n].Header? && NoHeaders(p) {
        assert NoHeaders(ks);
      }
      if ks[n].Header? {
        assert !NoHeaders(ks);
      }
      if !NoHeaders(p) {
        var k :| 0 <= k < n && p[k].Header?;
        assert ks[k] == p[k];
      }
    }
  }

  /** No header: nothing is returned, whatever else the lines hold. */
  lemma NoHeaderNoRecords(ks: seq<LineKind>)
    requires NoHeaders(ks)
    ensures ParseKinds(ks) == Ok(map[])
  {
    ParseKindsFails(ks);
    ScanShape(ks);
  }

  /** The keys of the result are exactly the ids of the header lines. */
  lemma {:induction false} ParseKindsKeys(ks: seq<LineKind>)
    requires ParseKinds(ks).Ok?
    ensures ParseKinds(ks).value.Keys == HeaderIds(ks)
  {
    ScanShape(ks);
  }

  /** Classifying a file is classifying its parts. */
  lemma KindsAppend(a: seq<string>, b: seq<string>)
    ensures Kinds(a + b) == Kinds(a) + Kinds(b)
  {
    MapSeqAppend(Classify, a, b);
  }

  /** A blank line is skipped: it changes neither the result nor the error. */
  lemma BlankKindIgnored(a: seq<LineKind>, b: seq<LineKind>)
    ensures ParseKinds(a + [Blank] + b) == ParseKinds(a + b)
  {
    ScanAppend(Ok(Start), a + [Blank], b);
    ScanAppend(Ok(Start), a, [Blank]);
    ScanAppend(Ok(Start), a, b);
    assert [Blank][..0] == [];
  }

  /** A line that strips to nothing is skipped. */
  lemma BlankLineIgnored(a: seq<string>, x: string, b: seq<string>)
    requires Strip(x) == []
    ensures ParseFasta(a + [x] + b) == ParseFasta(a + b)
  {
    KindsAppend(a + [x], b);
    KindsAppend(a, [x]);
    KindsAppend(a, b);
    KindsAt([x], 0);
    assert Kinds([x]) == [Blank];
    BlankKindIgnored(Kinds(a), Kinds(b));
  }

  /** Sequence lines only extend the buffer; blank lines leave it alone. */
  lemma {:induction false} SequenceLines(st: FastaState, b: seq<LineKind>)
    requires NoHeaders(b)
    ensures ScanFrom(Ok(st), b) == Ok(st.(currentSequence := st.currentSequence + Texts(b)))
    decreases |b|
  {
    if b != [] {
      var n := |b| - 1;
      assert NoHeaders(b[..n]) by {
        forall k | 0 <= k < n ensures !b[..n][k].Header? {
          assert b[..n][k] == b[k];
        }
      }
      SequenceLines(st, b[..n]);
      var s1 := st.(currentSequence := st.currentSequence + Texts(b[..n]));
      assert ScanFrom(Ok(st), b) == Step(s1, b[n]);
      assert !b[n].Header?;
      if b[n].Residues? {
        assert st.currentSequence + Texts(b[..n]) + [b[n].text] == st.currentSequence + Texts(b);
      } else {
        assert Texts(b) == Texts(b[..n]);
      }
    } else {
      assert st.currentSequence + Texts(b) == st.currentSequence;
    }
  }

  /**
   * A record already written is left alone by later lines that hold no
   * header with its id.
   */
  lemma {:induction false} RecordKept(st: FastaState, b: seq<LineKind>, id: string)
    requires id in st.proteinMap && st.currentId != Some(id)
    requires id !in HeaderIds(b)
    requires ScanFrom(Ok(st), b).Ok?
    ensures var st' := ScanFrom(Ok(st), b).value;
      id in st'.proteinMap && st'.proteinMap[id] == st.proteinMap[id] && st'.currentId != Some(id)
    decreases |b|
  {
    if b != [] {
      var n := |b| - 1;
      RecordKept(st, b[..n], id);
    }
  }

  /**
   * Record sequence: for a header whose id no later header repeats, the
   * result maps that id to the text of the sequence lines after the header
   * up to the next header (or the end), concatenated; when the header is the
   * first one, the sequence lines before it come first. A header right
   * before another header, or at the end, gets "".
   */
  lemma ParseKindsRecord(pre: seq<LineKind>, h: LineKind, body: seq<LineKind>, rest: seq<LineKind>, id: string)
    requires IdOf(h) == Some(id)
    requires NoHeaders(body)
    requires rest == [] || rest[0].Header?
    requires id !in HeaderIds(rest)
    requires ParseKinds(pre + [h] + body + rest).Ok?
    ensures var m := ParseKinds(pre + [h] + body + rest).value;
      id in m && m[id] == Join((if NoHeaders(pre) then Texts(pre) else []) + Texts(body))
  {
    ScanAppend(Ok(Start), pre + [h] + body, rest);
    if Scan(pre + [h] + body).Err? {
      ScanErrSticky(Scan(pre + [h] + body).error, rest);
      assert false;
    }
    RecordOpen(pre, h, body, id);
    RecordClosed(Scan(pre + [h] + body).value, rest, id);
  }

  /** After a header and its sequence lines, the record is open with their text buffered. */
  lemma RecordOpen(pre: seq<LineKind>, h: LineKind, body: seq<LineKind>, id: string)
    requires IdOf(h) == Some(id)
    requires NoHeaders(body)
    requires Scan(pre + [h] + body).Ok?
    ensures var st := Scan(pre + [h] + body).value;
      st.currentId == Some(id) && st.currentSequence == (if NoHeaders(pre) then Texts(pre) else []) + Texts(body)
  {
    ScanAppend(Ok(Start), pre + [h], body);
    ScanAppend(Ok(Start), pre, [h]);
    assert [h][..0] == [];
    if Scan(pre).Err? {
      ScanErrSticky(Scan(pre).error, body);
      assert false;
    }
    ScanShape(pre);
    var st0 := Scan(pre).value;
    var st1 := FastaState(Flushed(st0), Some(id), if st0.currentId.Some? then [] else st0.currentSequence);
    assert Scan(pre + [h]) == Ok(st1);
    SequenceLines(st1, body);
  }

  /** An open record is written unchanged once the next header, or the end, is reached. */
  lemma RecordClosed(st: FastaState, rest: seq<LineKind>, id: string)
    requires st.currentId == Some(id)
    requires rest == [] || rest[0].Header?
    requires id !in HeaderIds(rest)
    requires ScanFrom(Ok(st), rest).Ok?
    ensures var m := Flushed(ScanFrom(Ok(st), rest).value);
      id in m && m[id] == Join(st.currentSequence)
  {
    if rest != [] {
      assert rest == [rest[0]] + rest[1..];
      ScanAppend(Ok(st), [rest[0]], rest[1..]);
      assert [rest[0]][..0] == [];
      HeaderIdsTail(rest);
      if Step(st, rest[0]).Err? {
        ScanErrSticky(Step(st, rest[0]).error, rest[1..]);
        assert false;
      }
      RecordKept(Step(st, rest[0]).value, rest[1..], id);
    }
  }

  /** `">sp|P1|A\n".strip()` drops the newline only. */
  lemma StripExample()
    ensures Strip(">sp|P1|A\n") == ">sp|P1|A"
  {
    var line := ">sp|P1|A\n";
    assert StripStart(line) == line;
    assert line[..|line| - 1] == ">sp|P1|A";
    assert StripEnd(line) == StripEnd(">sp|P1|A") == ">sp|P1|A";
  }

  /** `"|P1|A".split('|')` gives an empty first field. */
  lemma SplitExampleTail()
    ensures SplitOn("|P1|A", '|') == ["", "P1", "A"]
  {
    assert SplitOn("", '|') == [""];
    assert "A"[1..] == "" && ['A'] + "" == "A" && [""][1..] == [];
    assert SplitOn("A", '|') == ["A"];
    assert "|A"[1..] == "A";
    assert SplitOn("|A", '|') == ["", "A"];
    assert "1|A"[1..] == "|A";
    assert ["", "A"][1..] == ["A"] && ['1'] + "" == "1";
    assert SplitOn("1|A", '|') == ["1", "A"];
    assert "P1|A"[1..] == "1|A";
    assert ["1", "A"][1..] == ["A"] && ['P'] + "1" == "P1";
    assert SplitOn("P1|A", '|') == ["P1", "A"];
    assert "|P1|A"[1..] == "P1|A";
    assert SplitOn("|P1|A", '|') == ["", "P1", "A"];
  }

  /** A character other than the separator joins the first field. */
  lemma SplitOnCons(c: char, s: string, sep: char)
    requires c != sep
    ensures SplitOn([c] + s, sep) == [[c] + SplitOn(s, sep)[0]] + SplitOn(s, sep)[1..]
  {
  }

  /** `"p|P1|A".split('|')`: the first field grows by one character. */
  lemma SplitExampleP()
    ensures SplitOn("p|P1|A", '|') == ["p", "P1", "A"]
  {
    assert ['p'] + "|P1|A" == "p|P1|A" && ['p'] + "" == "p";
    assert ["", "P1", "A"][1..] == ["P1", "A"];
    SplitExampleTail();
    SplitOnCons('p', "|P1|A", '|');
  }

  /** `"sp|P1|A".split('|')`. */
  lemma SplitExampleSp()
    ensures SplitOn("sp|P1|A", '|') == ["sp", "P1", "A"]
  {
    assert ['s'] + "p|P1|A" == "sp|P1|A" && ['s'] + "p" == "sp";
    assert ["p", "P1", "A"][1..] == ["P1", "A"];
    SplitExampleP();
    SplitOnCons('s', "p|P1|A", '|');
  }

  /** `">sp|P1|A".split('|')` gives the three fields. */
  lemma SplitExample()
    ensures SplitOn(">sp|P1|A", '|') == [">sp", "P1", "A"]
  {
    assert ['>'] + "sp|P1|A" == ">sp|P1|A" && ['>'] + "sp" == ">sp";
    assert ["sp", "P1", "A"][1..] == ["P1", "A"];
    SplitExampleSp();
    SplitOnCons('>', "sp|P1|A", '|');
  }

  /** The second `|`-field of a stripped header is its id: ">sp|P1|A" gives "P1". */
  lemma HeaderIdExample()
    ensures IdOf(Classify(">sp|P1|A\n")) == Some("P1")
  {
    StripExample();
    SplitExample();
  }
}
