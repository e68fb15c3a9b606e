/**
 * The cleavage-pattern registry: four proteases, each a zero-width rule that
 * marks the boundaries of a sequence where it is cut.
 */
module CleavagePatterns {
  import opened Wrappers

  /** The enzymes the registry knows. */
  datatype Enzyme = LysC | LysN | ArgC | Trypsin {
    /** The registry key under which the enzyme's pattern is stored. */
    function Name(): string {
      match this
      case LysC => "LysC"
      case LysN => "LysN"
      case ArgC => "ArgC"
      case Trypsin => "Trypsin"
    }
  }

  /**
   * Boundary `p` of `s` (the gap before `s[p]`; `p == |s|` is the end) is a cut
   * site of enzyme `e`. Each case is the lookaround of the pattern written out:
   * LysC `(?<=K)`, LysN `(?=K)`, ArgC `(?<=R)`, Trypsin `(?<=[KR])(?!P)`.
   */
  predicate IsCut(e: Enzyme, s: string, p: nat)
    requires p <= |s|
  {
    match e
    case LysC => p > 0 && s[p - 1] == 'K'
    case LysN => p < |s| && s[p] == 'K'
    case ArgC => p > 0 && s[p - 1] == 'R'
    case Trypsin => p > 0 && (s[p - 1] == 'K' || s[p - 1] == 'R') && (p == |s| || s[p] != 'P')
  }

  /** The registry itself: enzyme name to rule. */
  const EnzymeCleavagePatterns: map<string, Enzyme> :=
    map["LysC" := LysC, "LysN" := LysN, "ArgC" := ArgC, "Trypsin" := Trypsin]

  /** Looking a rule up by name; an unregistered name is the dictionary's KeyError. */
  function Lookup(name: string): (r: Option<Enzyme>)
    ensures r.Some? <==> name in {"LysC", "LysN", "ArgC", "Trypsin"}
    ensures r.Some? ==> r.value.Name() == name
    ensures forall e: Enzyme :: name == e.Name() ==> r == Some(e)
  {
    if name in EnzymeCleavagePatterns then Some(EnzymeCleavagePatterns[name]) else None
  }

  /** Every Trypsin site is a LysC site or an ArgC site. */
  lemma TrypsinCutsAreLysCOrArgC(s: string, p: nat)
    requires p <= |s|
    ensures IsCut(Trypsin, s, p) ==> IsCut(LysC, s, p) || IsCut(ArgC, s, p)
  {
  }
}
