/**
 * In-silico digestion of protein sequences and sequence coverage.
 *
 * `re.split` on a zero-width pattern cuts the string at every boundary the
 * pattern matches, the start and the end included; here the matched
 * boundaries are computed by `Cuts` and the pieces between them by `Pieces`.
 */
module ProteinDigestion {
  import opened CleavagePatterns

  /** Default inclusive length bounds of `digest_protein_collection`. */
  const DefaultMinPepLen: int := 5
  const DefaultMaxPepLen: int := 30

  // ---------------------------------------------------------------------
  // Splitting at cut sites
  // ---------------------------------------------------------------------

  /** Strictly ascending positions. */
  predicate Ascending(c: seq<nat>) {
    forall i, j :: 0 <= i < j < |c| ==> c[i] < c[j]
  }

  /** All positions in `lo..hi`. */
  predicate Within(c: seq<nat>, lo: nat, hi: nat) {
    forall i :: 0 <= i < |c| ==> lo <= c[i] <= hi
  }

  /** The boundaries `q` with `p <= q <= |s|` that are cut sites of `e`, in ascending order. */
  function CutsFrom(e: Enzyme, s: string, p: nat): (c: seq<nat>)
    requires p <= |s| + 1
    ensures forall q :: q in c <==> p <= q <= |s| && IsCut(e, s, q)
    ensures Ascending(c) && Within(c, p, |s|)
    decreases |s| + 1 - p
  {
    if p > |s| then []
    else if IsCut(e, s, p) then [p] + CutsFrom(e, s, p + 1)
    else CutsFrom(e, s, p + 1)
  }

  /** Every cut site of `e` in `s`, ascending. */
  function Cuts(e: Enzyme, s: string): (c: seq<nat>)
    ensures forall q: nat :: q in c <==> q <= |s| && IsCut(e, s, q)
    ensures Ascending(c) && Within(c, 0, |s|)
  {
    CutsFrom(e, s, 0)
  }

  /** Concatenation of a list of strings (`''.join`). */
  function Concat(ps: seq<string>): string {
    if ps == [] then [] else ps[0] + Concat(ps[1..])
  }

  /** The pieces of `s[lo..]` between consecutive cut positions. */
  function Pieces(s: string, lo: nat, cuts: seq<nat>): (r: seq<string>)
    requires lo <= |s| && Ascending(cuts) && Within(cuts, lo, |s|)
    ensures |r| == |cuts| + 1
    ensures Concat(r) == s[lo..]
    decreases |cuts|
  {
    if cuts == [] then [s[lo..]]
    else
      var rest := Pieces(s, cuts[0], cuts[1..]);
      assert s[lo..cuts[0]] + s[cuts[0]..] == s[lo..];
      [s[lo..cuts[0]]] + rest
  }

  /** `re.split(pattern, s)` for the pattern of `e`. */
  function Split(e: Enzyme, s: string): seq<string> {
    Pieces(s, 0, Cuts(e, s))
  }

  /** The boundaries of the pieces of `Split(e, s)`: start, every cut site, end. */
  function Bounds(e: Enzyme, s: string): seq<nat> {
    [0] + Cuts(e, s) + [|s|]
  }

  /** Piece `k` of `Pieces(s, lo, cuts)` runs from bound `k` to bound `k + 1`. */
  lemma {:induction false} PieceAt(s: string, lo: nat, cuts: seq<nat>, k: nat)
    requires lo <= |s| && Ascending(cuts) && Within(cuts, lo, |s|)
    requires k <= |cuts|
    ensures var b := [lo] + cuts + [|s|];
      b[k] <= b[k + 1] <= |s| && Pieces(s, lo, cuts)[k] == s[b[k]..b[k + 1]]
    decreases |cuts|
  {
    if cuts != [] && k > 0 {
      PieceAt(s, cuts[0], cuts[1..], k - 1);
      var b := [lo] + cuts + [|s|];
      var b' := [cuts[0]] + cuts[1..] + [|s|];
      assert b[k] == b'[k - 1] && b[k + 1] == b'[k];
    }
  }

  /**
   * `Split` cuts exactly at the cut sites: piece `k` is the text between
   * bounds `k` and `k + 1`, each inner bound is a cut site and no boundary
   * strictly inside a piece is one.
   */
  lemma SplitPiece(e: Enzyme, s: string, k: nat)
    requires k < |Split(e, s)|
    ensures var b := Bounds(e, s);
      && |b| == |Split(e, s)| + 1
      && b[k] <= b[k + 1] <= |s|
      && Split(e, s)[k] == s[b[k]..b[k + 1]]
      && (0 < k ==> IsCut(e, s, b[k]))
      && (k + 1 < |Split(e, s)| ==> IsCut(e, s, b[k + 1]))
      && (forall q :: b[k] < q < b[k + 1] ==> !IsCut(e, s, q))
  {
    var c := Cuts(e, s);
    var b := Bounds(e, s);
    PieceAt(s, 0, c, k);
    assert b == [0] + c + [|s|];
    if 0 < k { assert b[k] == c[k - 1] && b[k] in c; }
    if k + 1 < |Split(e, s)| { assert b[k + 1] == c[k] && b[k + 1] in c; }
  }

  /** Split round trip: the pieces, in order, concatenate back to the sequence. */
  lemma SplitConcat(e: Enzyme, s: string)
    ensures Concat(Split(e, s)) == s
    ensures |Split(e, s)| == |Cuts(e, s)| + 1
  {
  }

  // ---------------------------------------------------------------------
  // digest_protein_sequence
  // ---------------------------------------------------------------------

  /** The peptides of one protein and the number reported in `'Nr. of digested peptides: {n}'`. */
  datatype Digestion = Digestion(peptides: seq<string>, count: nat)

  /** `digest_protein_sequence`: the unfiltered split and its length. */
  function DigestProteinSequence(e: Enzyme, proteinSeq: string): (r: Digestion)
    ensures Concat(r.peptides) == proteinSeq
    ensures |r.peptides| == |Cuts(e, proteinSeq)| + 1
    ensures r.count == |r.peptides|
  {
    var peptides := Split(e, proteinSeq);
    Digestion(peptides, |peptides|)
  }

  /** The empty sequence has no cut site under any enzyme, so it digests to `[""]`. */
  lemma {:induction false} DigestEmptySequence(e: Enzyme)
    ensures DigestProteinSequence(e, "") == Digestion([""], 1)
  {
    assert Cuts(e, "") == [];
  }

  // ---------------------------------------------------------------------
  // What each rule does to the pieces
  // ---------------------------------------------------------------------

  /** The end of the sequence is a cut site only when it is the last cut. */
  lemma EndCutIsLast(e: Enzyme, s: string)
    requires IsCut(e, s, |s|)
    ensures |Cuts(e, s)| > 0 && Cuts(e, s)[|Cuts(e, s)| - 1] == |s|
  {
    var c := Cuts(e, s);
    assert |s| in c;
  }

  /** The start of the sequence is a cut site only when it is the first cut. */
  lemma StartCutIsFirst(e: Enzyme, s: string)
    requires IsCut(e, s, 0)
    ensures |Cuts(e, s)| > 0 && Cuts(e, s)[0] == 0
  {
    var c := Cuts(e, s);
    assert 0 in c;
  }

  /**
   * LysC and ArgC cut after every occurrence of their residue: each piece but
   * the last ends with the residue and holds it nowhere else, and the last
   * piece does not hold it at all (a trailing residue leaves an empty last piece).
   */
  lemma {:induction false} CutAfterPieces(e: Enzyme, r: char, s: string, k: nat)
    requires (e == LysC && r == 'K') || (e == ArgC && r == 'R')
    requires k < |Split(e, s)|
    ensures var piece := Split(e, s)[k];
      && (forall i :: 0 <= i < |piece| - 1 ==> piece[i] != r)
      && (k + 1 < |Split(e, s)| ==> 0 < |piece| && piece[|piece| - 1] == r)
      && (k + 1 == |Split(e, s)| ==> r !in piece)
  {
    SplitPiece(e, s, k);
    var b := Bounds(e, s);
    var piece := Split(e, s)[k];
    forall i | 0 <= i < |piece| - 1 ensures piece[i] != r {
      assert piece[i] == s[b[k] + i];
      assert !IsCut(e, s, b[k] + i + 1);
    }
    if k + 1 == |Split(e, s)| && 0 < |piece| {
      if IsCut(e, s, |s|) {
        EndCutIsLast(e, s);
      }
      assert piece[|piece| - 1] == s[|s| - 1];
    }
  }

  /**
   * LysN cuts before every K: each piece but the first starts with K and holds
   * it nowhere else, and the first piece holds no K (a leading K leaves an
   * empty first piece).
   */
  lemma {:induction false} LysNPieces(s: string, k: nat)
    requires k < |Split(LysN, s)|
    ensures var piece := Split(LysN, s)[k];
      && (forall i :: 0 < i < |piece| ==> piece[i] != 'K')
      && (0 < k ==> 0 < |piece| && piece[0] == 'K')
      && (k == 0 ==> 'K' !in piece)
  {
    SplitPiece(LysN, s, k);
    var b := Bounds(LysN, s);
    var piece := Split(LysN, s)[k];
    forall i | 0 < i < |piece| ensures piece[i] != 'K' {
      assert piece[i] == s[b[k] + i];
      assert !IsCut(LysN, s, b[k] + i);
    }
    if 0 < k {
      var c := Cuts(LysN, s);
      if k < |c| { assert c[k - 1] < c[k]; }
    }
    if k == 0 && 0 < |piece| {
      if IsCut(LysN, s, 0) {
        StartCutIsFirst(LysN, s);
      }
      assert piece[0] == s[0];
    }
  }

  /**
   * Trypsin cuts after K or R unless a P follows: each piece but the last ends
   * with K or R and the next piece does not start with P, and inside a piece
   * every K or R is followed by P.
   */
  lemma {:induction false} TrypsinPieces(s: string, k: nat)
    requires k < |Split(Trypsin, s)|
    ensures var pieces := Split(Trypsin, s); var piece := pieces[k];
      && (forall i :: 0 <= i < |piece| - 1 && (piece[i] == 'K' || piece[i] == 'R') ==> piece[i + 1] == 'P')
      && (k + 1 < |pieces| ==>
            && 0 < |piece| && (piece[|piece| - 1] == 'K' || piece[|piece| - 1] == 'R')
            && (pieces[k + 1] == [] || pieces[k + 1][0] != 'P'))
  {
    SplitPiece(Trypsin, s, k);
    var b := Bounds(Trypsin, s);
    var piece := Split(Trypsin, s)[k];
    forall i | 0 <= i < |piece| - 1 && (piece[i] == 'K' || piece[i] == 'R') ensures piece[i + 1] == 'P' {
      assert piece[i] == s[b[k] + i] && piece[i + 1] == s[b[k] + i + 1];
      assert !IsCut(Trypsin, s, b[k] + i + 1);
    }
    if k + 1 < |Split(Trypsin, s)| {
      SplitPiece(Trypsin, s, k + 1);
    }
  }

  /** A worked Trypsin split: the K at index 1 is shielded by the P after it. */
  lemma TrypsinExample()
    ensures Split(Trypsin, "AKPKRA") == ["AKPK", "R", "A"]
  {
    var s := "AKPKRA";
    assert CutsFrom(Trypsin, s, 6) == [];
    assert CutsFrom(Trypsin, s, 5) == [5];
    assert CutsFrom(Trypsin, s, 4) == [4, 5];
    assert CutsFrom(Trypsin, s, 3) == [4, 5];
    assert CutsFrom(Trypsin, s, 2) == [4, 5];
    assert CutsFrom(Trypsin, s, 1) == [4, 5];
    assert CutsFrom(Trypsin, s, 0) == [4, 5];
    assert s[5..] == "A" && s[4..5] == "R" && s[0..4] == "AKPK";
    assert [5][1..] == [] && [4, 5][1..] == [5];
    assert Pieces(s, 5, []) == ["A"];
    assert Pieces(s, 4, [5]) == ["R", "A"];
  }

  /** A trailing K gives LysC an empty last piece. */
  lemma LysCTrailingExample()
    ensures Split(LysC, "AK") == ["AK", ""]
  {
    var s := "AK";
    assert CutsFrom(LysC, s, 2) == [2];
    assert CutsFrom(LysC, s, 0) == [2];
    assert s[2..] == "" && s[0..2] == "AK" && [2][1..] == [];
    assert Pieces(s, 2, []) == [""];
  }

  /** A leading K gives LysN an empty first piece. */
  lemma LysNLeadingExample()
    ensures Split(LysN, "KA") == ["", "KA"]
  {
    var s := "KA";
    assert CutsFrom(LysN, s, 1) == [];
    assert CutsFrom(LysN, s, 0) == [0];
    assert s[0..] == "KA" && s[0..0] == "" && [0][1..] == [];
    assert Pieces(s, 0, []) == ["KA"];
  }

  // ---------------------------------------------------------------------
  // digest_protein_collection
  // ---------------------------------------------------------------------

  /** `a` occurs in `b` in order, possibly with gaps. */
  predicate IsSubsequence<T(==)>(a: seq<T>, b: seq<T>)
    decreases |b|
  {
    a == [] || (b != [] && ((a[0] == b[0] && IsSubsequence(a[1..], b[1..])) || IsSubsequence(a, b[1..])))
  }

  /** The peptides `p` with `lo <= |p| <= hi`, in their original order. */
  function FilterByLength(ps: seq<string>, lo: int, hi: int): (r: seq<string>)
    ensures forall p :: p in r <==> p in ps && lo <= |p| <= hi
    ensures forall p :: multiset(r)[p] == if lo <= |p| <= hi then multiset(ps)[p] else 0
    ensures IsSubsequence(r, ps)
    ensures |r| <= |ps|
  {
    if ps == [] then []
    else
      var rest := FilterByLength(ps[1..], lo, hi);
      assert ps == [ps[0]] + ps[1..];
      if lo <= |ps[0]| <= hi then [ps[0]] + rest else rest
  }

  function Min(a: int, b: int): int { if a <= b then a else b }
  function Max(a: int, b: int): int { if a <= b then b else a }

  /**
   * One entry of `digest_protein_collection` with already ordered bounds: an
   * empty sequence short-circuits to no peptides; otherwise the split pieces
   * of length `lo..hi` in split order, and their number.
   */
  function DigestProtein(e: Enzyme, proteinSeq: string, lo: int, hi: int): (r: Digestion)
    ensures proteinSeq == [] ==> r == Digestion([], 0)
    ensures r.count == |r.peptides|
  {
    if proteinSeq == [] then Digestion([], 0)
    else
      var filtered := FilterByLength(Split(e, proteinSeq), lo, hi);
      Digestion(filtered, |filtered|)
  }

  /**
   * Length filter: for a non-empty sequence the retained peptides are exactly
   * the split pieces whose length lies in `lo..hi`, each as often as it was
   * split off, in split order; the reported count is the count after filtering.
   */
  lemma RetainedPeptides(e: Enzyme, proteinSeq: string, lo: int, hi: int)
    requires proteinSeq != []
    ensures var r := DigestProtein(e, proteinSeq, lo, hi); var pieces := Split(e, proteinSeq);
      && IsSubsequence(r.peptides, pieces)
      && (forall p :: p in r.peptides <==> p in pieces && lo <= |p| <= hi)
      && (forall p :: multiset(r.peptides)[p] == if lo <= |p| <= hi then multiset(pieces)[p] else 0)
      && r.count == |r.peptides| <= |pieces|
  {
  }

  /**
   * The short circuit for an empty sequence is observable: when the lower
   * bound admits length 0, filtering the split `[""]` would keep one empty peptide.
   */
  lemma EmptySequenceShortCircuit(e: Enzyme, hi: nat)
    ensures DigestProtein(e, "", 0, hi) == Digestion([], 0)
    ensures FilterByLength(Split(e, ""), 0, hi) == [""]
  {
    DigestEmptySequence(e);
  }

  /** The whole result of `digest_protein_collection`: one entry per protein, bounds put in order. */
  function DigestedProteins(proteinMap: map<string, string>, e: Enzyme, minPepLen: int, maxPepLen: int)
    : (r: map<string, Digestion>)
    ensures r.Keys == proteinMap.Keys
  {
    map id | id in proteinMap :: DigestProtein(e, proteinMap[id], Min(minPepLen, maxPepLen), Max(minPepLen, maxPepLen))
  }

  /** Inverted bounds are swapped, never an error: exchanging them changes nothing. */
  lemma BoundSwap(proteinMap: map<string, string>, e: Enzyme, a: int, b: int)
    ensures DigestedProteins(proteinMap, e, a, b) == DigestedProteins(proteinMap, e, b, a)
  {
  }

  /** `digest_protein_collection`: digests every protein of the map, keyed by protein id. */
  method DigestProteinCollection(proteinMap: map<string, string>, e: Enzyme, minPepLen: int := DefaultMinPepLen, maxPepLen: int := DefaultMaxPepLen)
    returns (digested: map<string, Digestion>)
    ensures digested.Keys == proteinMap.Keys
    ensures forall id :: id in digested ==>
      digested[id] == DigestProtein(e, proteinMap[id], Min(minPepLen, maxPepLen), Max(minPepLen, maxPepLen))
    ensures digested == DigestedProteins(proteinMap, e, minPepLen, maxPepLen)
  {
    var lo, hi := minPepLen, maxPepLen;
    if lo > hi {
      lo, hi := hi, lo;
    }
    digested := map[];
    var remaining := proteinMap.Keys;
    while remaining != {}
      invariant remaining <= proteinMap.Keys
      invariant digested.Keys == proteinMap.Keys - remaining
      invariant forall id :: id in digested ==> digested[id] == DigestProtein(e, proteinMap[id], lo, hi)
      decreases |remaining|
    {
      var proteinId :| proteinId in remaining;
      var proteinSeq := proteinMap[proteinId];
      remaining := remaining - {proteinId};
      if proteinSeq == [] {
        digested := digested[proteinId := Digestion([], 0)];
        continue;
      }
      var peptides := Split(e, proteinSeq);
      var filtered := FilterByLength(peptides, lo, hi);
      digested := digested[proteinId := Digestion(filtered, |filtered|)];
    }
    SameEntries(digested, DigestedProteins(proteinMap, e, minPepLen, maxPepLen));
  }

  /** Two maps with the same keys and the same entries are equal. */
  lemma SameEntries<K, V>(m1: map<K, V>, m2: map<K, V>)
    requires m1.Keys == m2.Keys && forall k :: k in m1 ==> m1[k] == m2[k]
    ensures m1 == m2
  {
  }

  // ---------------------------------------------------------------------
  // compute_sequence_coverage
  // ---------------------------------------------------------------------

  /** `pat` occurs in `s` starting at index `j`. */
  predicate OccursAt(s: string, pat: string, j: int) {
    0 <= j && j + |pat| <= |s| && s[j..j + |pat|] == pat
  }

  /**
   * `s.find(pat, start)`: the first index at or after `start` where `pat`
   * occurs, or -1 when there is none (always -1 once `start > |s|`).
   */
  function Find(s: string, pat: string, start: nat): (idx: int)
    ensures idx == -1 <==> !exists j :: start <= j && OccursAt(s, pat, j)
    ensures idx != -1 ==> start <= idx && OccursAt(s, pat, idx)
    ensures idx != -1 ==> forall j :: start <= j < idx ==> !OccursAt(s, pat, j)
    decreases |s| - start
  {
    if start + |pat| > |s| then -1
    else if s[start..start + |pat|] == pat then assert OccursAt(s, pat, start); start
    else Find(s, pat, start + 1)
  }

  /** The integers `lo <= i < hi` (Python's `range(lo, hi)` as a set). */
  function Span(lo: int, hi: int): (r: set<int>)
    ensures forall i :: i in r <==> lo <= i < hi
    decreases hi - lo
  {
    if hi <= lo then {} else Span(lo, hi - 1) + {hi - 1}
  }

  /** Position `i` lies inside an occurrence of `pat` in `s`. */
  ghost predicate InOccurrence(s: string, pat: string, i: int) {
    exists j :: OccursAt(s, pat, j) && j <= i < j + |pat|
  }

  /** The positions of `s` inside some occurrence of `pat`, overlapping ones included. */
  ghost function Occurrences(s: string, pat: string): set<int> {
    set i | 0 <= i < |s| && InOccurrence(s, pat, i)
  }

  /** Position `i` lies inside an occurrence of one of the peptides. */
  ghost predicate Covered(s: string, peptides: seq<string>, i: int) {
    exists k, j :: 0 <= k < |peptides| && OccursAt(s, peptides[k], j) && j <= i < j + |peptides[k]|
  }

  /** The positions of `s` inside some occurrence of some peptide. */
  ghost function CoverageSet(s: string, peptides: seq<string>): set<int> {
    set i | 0 <= i < |s| && Covered(s, peptides, i)
  }

  /** The percentage `compute_sequence_coverage` reports; 0 for an empty sequence or peptide list. */
  ghost function CoveragePercent(s: string, peptides: seq<string>): real {
    if s == [] || peptides == [] then 0.0
    else (|CoverageSet(s, peptides)| as real) / (|s| as real) * 100.0
  }

  /** Covering one more peptide adds exactly the positions of its occurrences. */
  lemma CoverageSnoc(s: string, peptides: seq<string>, k: nat)
    requires k < |peptides|
    ensures CoverageSet(s, peptides[..k + 1]) == CoverageSet(s, peptides[..k]) + Occurrences(s, peptides[k])
  {
    var before, after := peptides[..k], peptides[..k + 1];
    forall i | i in CoverageSet(s, after) ensures i in CoverageSet(s, before) + Occurrences(s, peptides[k]) {
      var k', j :| 0 <= k' < |after| && OccursAt(s, after[k'], j) && j <= i < j + |after[k']|;
      if k' < k {
        assert before[k'] == after[k'];
      }
    }
    forall i | i in CoverageSet(s, before) ensures i in CoverageSet(s, after) {
      var k', j :| 0 <= k' < |before| && OccursAt(s, before[k'], j) && j <= i < j + |before[k']|;
      assert after[k'] == before[k'];
    }
    forall i | i in Occurrences(s, peptides[k]) ensures i in CoverageSet(s, after) {
      var j :| OccursAt(s, peptides[k], j) && j <= i < j + |peptides[k]|;
      assert after[k] == peptides[k];
    }
  }

  /** `Span(lo, hi)` has `hi - lo` elements. */
  lemma {:induction false} SpanSize(lo: int, hi: int)
    requires lo <= hi
    ensures |Span(lo, hi)| == hi - lo
    decreases hi - lo
  {
    if lo < hi {
      SpanSize(lo, hi - 1);
    }
  }

  /**
   * Coverage bounds: at most every position of the sequence is covered, and
   * all of them are when the sequence itself is one of the peptides.
   */
  lemma CoverageBounds(s: string, peptides: seq<string>)
    ensures CoverageSet(s, peptides) <= Span(0, |s|)
    ensures |CoverageSet(s, peptides)| <= |s|
    ensures s in peptides ==> CoverageSet(s, peptides) == Span(0, |s|)
  {
    var c := CoverageSet(s, peptides);
    SpanSize(0, |s|);
    assert |c| <= |Span(0, |s|)| by {
      assert Span(0, |s|) == c + (Span(0, |s|) - c);
    }
    if s in peptides {
      var k :| 0 <= k < |peptides| && peptides[k] == s;
      assert OccursAt(s, peptides[k], 0);
    }
  }

  /** The reported percentage lies in [0, 100] and is 100 when the sequence is one of the peptides. */
  lemma CoveragePercentBounds(s: string, peptides: seq<string>)
    ensures 0.0 <= CoveragePercent(s, peptides) <= 100.0
    ensures s != [] && s in peptides ==> CoveragePercent(s, peptides) == 100.0
  {
    CoverageBounds(s, peptides);
    if s != [] && peptides != [] {
      FractionBounds(|CoverageSet(s, peptides)|, |s|);
    }
    if s != [] && s in peptides {
      SpanSize(0, |s|);
    }
  }

  /** A count out of a non-zero total, as a percentage, lies in [0, 100] and is 100 for the whole. */
  lemma FractionBounds(part: nat, whole: nat)
    requires 0 < whole && part <= whole
    ensures 0.0 <= (part as real) / (whole as real) * 100.0 <= 100.0
    ensures part == whole ==> (part as real) / (whole as real) * 100.0 == 100.0
  {
    var p, w := part as real, whole as real;
    assert p / w <= 1.0 by {
      assert p / w * w == p;
    }
  }

  /** An empty peptide covers nothing: dropping it leaves the coverage as it was. */
  lemma EmptyPeptideCoversNothing(s: string, peptides: seq<string>)
    ensures CoverageSet(s, [""] + peptides) == CoverageSet(s, peptides)
  {
    var with := [""] + peptides;
    forall i | i in CoverageSet(s, with) ensures i in CoverageSet(s, peptides) {
      var k, j :| 0 <= k < |with| && OccursAt(s, with[k], j) && j <= i < j + |with[k]|;
      assert with[k] == peptides[k - 1];
    }
    forall i | i in CoverageSet(s, peptides) ensures i in CoverageSet(s, with) {
      var k, j :| 0 <= k < |peptides| && OccursAt(s, peptides[k], j) && j <= i < j + |peptides[k]|;
      assert with[k + 1] == peptides[k];
    }
  }

  /**
   * The inner `while True` scan of `compute_sequence_coverage` for one
   * peptide: `find` from `idx_start`, mark the positions of the occurrence
   * found, and move `idx_start` one past its own previous value (not past the
   * occurrence). An occurrence may be marked more than once, but every
   * occurrence, overlapping ones included, is marked, and the scan ends because
   * `idx_start` grows until `find` fails, also for the empty peptide.
   */
  method MarkOccurrences(proteinSeq: string, pep: string, coverage: set<int>) returns (marked: set<int>)
    ensures marked == coverage + Occurrences(proteinSeq, pep)
  {
    marked := coverage;
    var idxStart: nat := 0;
    while true
      invariant idxStart <= |proteinSeq| + 1
      invariant coverage <= marked <= coverage + Occurrences(proteinSeq, pep)
      invariant forall j :: 0 <= j < idxStart && OccursAt(proteinSeq, pep, j) ==> Span(j, j + |pep|) <= marked
      decreases |proteinSeq| + 1 - idxStart
    {
      var idx := Find(proteinSeq, pep, idxStart);
      if idx == -1 {
        break;
      }
      marked := marked + Span(idx, idx + |pep|);
      idxStart := idxStart + 1;
    }
    forall i | i in Occurrences(proteinSeq, pep) ensures i in marked {
      var j :| OccursAt(proteinSeq, pep, j) && j <= i < j + |pep|;
      assert i in Span(j, j + |pep|);
    }
  }

  /**
   * `compute_sequence_coverage`: 0 for an empty sequence or peptide list;
   * otherwise the share of positions covered by some occurrence of some
   * peptide, as a percentage.
   */
  method ComputeSequenceCoverage(proteinSeq: string, peptides: seq<string>) returns (coveragePercent: real)
    ensures coveragePercent == CoveragePercent(proteinSeq, peptides)
    ensures proteinSeq == [] || peptides == [] ==> coveragePercent == 0.0
    ensures 0.0 <= coveragePercent <= 100.0
    ensures proteinSeq != [] && proteinSeq in peptides ==> coveragePercent == 100.0
  {
    if proteinSeq == [] || peptides == [] {
      return 0.0;
    }
    var coverage: set<int> := {};
    for k := 0 to |peptides|
      invariant coverage == CoverageSet(proteinSeq, peptides[..k])
    {
      CoverageSnoc(proteinSeq, peptides, k);
      coverage := MarkOccurrences(proteinSeq, peptides[k], coverage);
    }
    assert peptides[..|peptides|] == peptides;
    coveragePercent := |coverage| as real / |proteinSeq| as real * 100.0;
    CoveragePercentBounds(proteinSeq, peptides);
  }

  /** Overlapping occurrences all count: "AA" covers all of "AAAA". */
  lemma OverlapExample()
    ensures CoveragePercent("AAAA", ["AA"]) == 100.0
  {
    var s, peptides := "AAAA", ["AA"];
    forall i | 0 <= i < 4 ensures Covered(s, peptides, i) {
      var j := if i < 2 then 0 else 2;
      assert s[j..j + 2] == "AA";
      assert OccursAt(s, peptides[0], j);
    }
    assert CoverageSet(s, peptides) == Span(0, 4);
    SpanSize(0, 4);
  }

  /** "MKV" occurs in "MKVLATGG" only at its start: no other position holds an M. */
  lemma PartialExampleOccurrence(j: int)
    requires OccursAt("MKVLATGG", "MKV", j)
    ensures j == 0
  {
    var s := "MKVLATGG";
    assert s[j] == s[j..j + 3][0] == 'M';
  }

  /** "MKV" covers 3 of the 8 positions of "MKVLATGG". */
  lemma PartialExample()
    ensures CoveragePercent("MKVLATGG", ["MKV"]) == 37.5
  {
    var s, peptides := "MKVLATGG", ["MKV"];
    assert s[0..3] == "MKV";
    assert OccursAt(s, peptides[0], 0);
    forall i | 0 <= i < 3 ensures Covered(s, peptides, i) {
      assert OccursAt(s, peptides[0], 0);
    }
    forall i | Covered(s, peptides, i) ensures i < 3 {
      var k, j :| 0 <= k < 1 && OccursAt(s, peptides[k], j) && j <= i < j + 3;
      PartialExampleOccurrence(j);
    }
    assert CoverageSet(s, peptides) == Span(0, 3);
    SpanSize(0, 3);
  }
}
