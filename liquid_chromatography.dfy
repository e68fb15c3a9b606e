/**
 * Selection of peptides by retention time. Retention times are exact
 * reals; the bounds are used as given, never swapped.
 */
module LiquidChromatography {

  /** The retention time `rt` lies in the closed window [lo, hi]. */
  predicate InWindow(rt: real, lo: real, hi: real) {
    lo <= rt <= hi
  }

  /** The entries of `m` whose retention time lies in [lo, hi], unchanged. */
  function Window(m: map<string, real>, lo: real, hi: real): (r: map<string, real>)
    ensures r.Keys <= m.Keys
  {
    map p | p in m && InWindow(m[p], lo, hi) :: m[p]
  }

  /**
   * `select_retention_time_window`: keeps exactly the peptides whose
   * retention time lies in [lowerRetTime, upperRetTime], both ends included,
   * with their retention times copied unchanged.
   */
  method SelectRetentionTimeWindow(peptideRtMap: map<string, real>, lowerRetTime: real, upperRetTime: real)
    returns (filtered: map<string, real>)
    ensures forall p :: p in filtered <==> p in peptideRtMap && lowerRetTime <= peptideRtMap[p] <= upperRetTime
    ensures forall p :: p in filtered ==> filtered[p] == peptideRtMap[p]
    ensures filtered == Window(peptideRtMap, lowerRetTime, upperRetTime)
  {
    filtered := map[];
    var remaining := peptideRtMap.Keys;
    while remaining != {}
      invariant remaining <= peptideRtMap.Keys
      invariant forall p :: p in filtered <==> p in peptideRtMap && p !in remaining && InWindow(peptideRtMap[p], lowerRetTime, upperRetTime)
      invariant forall p :: p in filtered ==> filtered[p] == peptideRtMap[p]
      decreases |remaining|
    {
      var pep :| pep in remaining;
      var rt := peptideRtMap[pep];
      if lowerRetTime <= rt <= upperRetTime {
        filtered := filtered[pep := rt];
      }
      remaining := remaining - {pep};
    }
    SameWindow(peptideRtMap, lowerRetTime, upperRetTime, filtered);
  }

  /** A map with the window's entries is the window. */
  lemma SameWindow(m: map<string, real>, lo: real, hi: real, r: map<string, real>)
    requires forall p :: p in r <==> p in m && InWindow(m[p], lo, hi)
    requires forall p :: p in r ==> r[p] == m[p]
    ensures r == Window(m, lo, hi)
  {
  }

  /** Selecting again with the same window changes nothing. */
  lemma WindowIdempotent(m: map<string, real>, lo: real, hi: real)
    ensures Window(Window(m, lo, hi), lo, hi) == Window(m, lo, hi)
  {
  }

  /** Bounds in the wrong order select nothing: they are not swapped. */
  lemma WindowInverted(m: map<string, real>, lo: real, hi: real)
    requires lo > hi
    ensures Window(m, lo, hi) == map[]
  {
  }

  /** Selecting with a window inside another after it is selecting with the inner one. */
  lemma WindowNested(m: map<string, real>, lo: real, hi: real, lo2: real, hi2: real)
    requires lo <= lo2 && hi2 <= hi
    ensures Window(Window(m, lo, hi), lo2, hi2) == Window(m, lo2, hi2)
  {
  }

  /** A window that holds every retention time keeps the whole map. */
  lemma WindowAll(m: map<string, real>, lo: real, hi: real)
    requires forall p :: p in m ==> InWindow(m[p], lo, hi)
    ensures Window(m, lo, hi) == m
  {
  }
}
