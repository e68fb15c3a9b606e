/**
 * Molecular mass and m/z of peptides, and their b/y-ion fragments.
 * Masses are exact reals; the residue mass table is a parameter.
 */
module MassSpectraSimulation {
  import opened Wrappers

  // ---------------------------------------------------------------------
  // Molecular mass of one peptide
  // ---------------------------------------------------------------------

  /** Every residue of `p` has a mass in `table`. */
  predicate AllKnown(p: string, table: map<char, real>) {
    forall i :: 0 <= i < |p| ==> p[i] in table
  }

  /** The `ValueError` message for a residue missing from the table. */
  function UnknownResidue(c: char): string {
    "Aminoacid not known: " + [c]
  }

  /**
   * The mass of `p`, summed left to right, or the error for the first
   * residue the table does not know.
   */
  function MolMass(p: string, table: map<char, real>): (r: Result<real>)
    ensures r.Ok? <==> AllKnown(p, table)
    decreases |p|
  {
    if p == [] then Ok(0.0)
    else
      var n := |p| - 1;
      match MolMass(p[..n], table)
      case Err(e) => Err(e)
      case Ok(m) => if p[n] in table then Ok(m + table[p[n]]) else Err(UnknownResidue(p[n]))
  }

  /** The error names the first residue that is not in the table. */
  lemma {:induction false} MolMassError(p: string, table: map<char, real>)
    requires !AllKnown(p, table)
    ensures exists i :: 0 <= i < |p| && p[i] !in table && AllKnown(p[..i], table)
                        && MolMass(p, table) == Err(UnknownResidue(p[i]))
    decreases |p|
  {
    var n := |p| - 1;
    if AllKnown(p[..n], table) {
      assert p[..n] == p[..n];
      assert p[n] !in table by {
        if p[n] in table {
          forall i | 0 <= i < |p| ensures p[i] in table {
            if i < n {
              assert p[..n][i] == p[i];
            }
          }
        }
      }
    } else {
      MolMassError(p[..n], table);
      var i :| 0 <= i < n && p[..n][i] !in table && AllKnown(p[..n][..i], table)
                && MolMass(p[..n], table) == Err(UnknownResidue(p[..n][i]));
      assert p[..n][..i] == p[..i];
    }
  }

  /** Mass is additive: the mass of `a + b` is the mass of `a` plus that of `b`. */
  lemma {:induction false} MolMassAppend(a: string, b: string, table: map<char, real>)
    requires AllKnown(a + b, table)
    ensures AllKnown(a, table) && AllKnown(b, table)
    ensures MolMass(a + b, table).value == MolMass(a, table).value + MolMass(b, table).value
    decreases |b|
  {
    assert forall i :: 0 <= i < |a| ==> (a + b)[i] == a[i];
    assert forall i :: 0 <= i < |b| ==> (a + b)[|a| + i] == b[i];
    if b == [] {
      assert a + b == a;
    } else {
      var n := |b| - 1;
      assert (a + b)[..|a + b| - 1] == a + b[..n];
      assert AllKnown(a + b[..n], table) by {
        assert forall i :: 0 <= i < |a + b[..n]| ==> (a + b[..n])[i] == (a + b)[i];
      }
      MolMassAppend(a, b[..n], table);
    }
  }

  /** With positive residue masses, a non-empty peptide has a positive mass. */
  lemma {:induction false} MolMassPositive(p: string, table: map<char, real>)
    requires AllKnown(p, table)
    requires forall c :: c in table ==> table[c] > 0.0
    ensures p == [] ==> MolMass(p, table).value == 0.0
    ensures p != [] ==> MolMass(p, table).value > 0.0
    decreases |p|
  {
    if p != [] {
      var n := |p| - 1;
      MolMassPositive(p[..n], table);
    }
  }

  /**
   * The loop of `calculate_mol_mass`, also inlined in
   * `calculate_mol_mass_collection`: accumulate residue masses, raising on
   * the first unknown residue.
   */
  method PeptideMass(pep: string, table: map<char, real>) returns (r: Result<real>)
    ensures r == MolMass(pep, table)
  {
    var mass := 0.0;
    for i := 0 to |pep|
      invariant MolMass(pep[..i], table) == Ok(mass)
    {
      assert pep[..i + 1][..i] == pep[..i];
      if pep[i] !in table {
        MolMassErrorKept(pep, i + 1, table);
        return Err(UnknownResidue(pep[i]));
      }
      mass := mass + table[pep[i]];
    }
    assert pep[..|pep|] == pep;
    r := Ok(mass);
  }

  /** Once a prefix has failed, so has the whole peptide, with the same error. */
  lemma {:induction false} MolMassErrorKept(p: string, k: nat, table: map<char, real>)
    requires k <= |p|
    requires MolMass(p[..k], table).Err?
    ensures MolMass(p, table) == MolMass(p[..k], table)
    decreases |p| - k
  {
    if k < |p| {
      assert p[..k + 1][..k] == p[..k];
      MolMassErrorKept(p, k + 1, table);
    } else {
      assert p[..k] == p;
    }
  }

  /**
   * `calculate_mol_mass`: a one-entry map from the peptide to its mass, or
   * the error for its first unknown residue.
   */
  method CalculateMolMass(peptideSeq: string, table: map<char, real>) returns (r: Result<map<string, real>>)
    ensures r.Ok? <==> AllKnown(peptideSeq, table)
    ensures r.Ok? ==> r.value == map[peptideSeq := MolMass(peptideSeq, table).value]
    ensures r.Err? ==> r == Err(MolMass(peptideSeq, table).error)
  {
    var mass := PeptideMass(peptideSeq, table);
    if mass.Err? {
      return Err(mass.error);
    }
    r := Ok(map[peptideSeq := mass.value]);
  }

  // ---------------------------------------------------------------------
  // Molecular masses of a list of peptides
  // ---------------------------------------------------------------------

  /**
   * The masses of `peptides`, one entry per distinct peptide, or the error
   * of the first peptide holding an unknown residue.
   */
  function MolMassCollection(peptides: seq<string>, table: map<char, real>): (r: Result<map<string, real>>)
    ensures r.Ok? <==> forall k :: 0 <= k < |peptides| ==> AllKnown(peptides[k], table)
    ensures r.Ok? ==> r.value.Keys == set k | 0 <= k < |peptides| :: peptides[k]
    ensures r.Ok? ==> forall p :: p in r.value ==> r.value[p] == MolMass(p, table).value
    decreases |peptides|
  {
    if peptides == [] then Ok(map[])
    else
      var n := |peptides| - 1;
      var prefix := peptides[..n];
      assert forall k :: 0 <= k < n ==> prefix[k] == peptides[k];
      match MolMassCollection(prefix, table)
      case Err(e) => Err(e)
      case Ok(m) =>
        match MolMass(peptides[n], table)
        case Err(e) => Err(e)
        case Ok(x) =>
          assert (set k | 0 <= k < |peptides| :: peptides[k]) == (set k | 0 <= k < n :: prefix[k]) + {peptides[n]};
          Ok(m[peptides[n] := x])
  }

  /** The error is the one of the first peptide with an unknown residue. */
  lemma {:induction false} MolMassCollectionError(peptides: seq<string>, table: map<char, real>)
    requires MolMassCollection(peptides, table).Err?
    ensures exists k :: 0 <= k < |peptides| && !AllKnown(peptides[k], table)
                        && (forall j :: 0 <= j < k ==> AllKnown(peptides[j], table))
                        && MolMassCollection(peptides, table).error == MolMass(peptides[k], table).error
    decreases |peptides|
  {
    var n := |peptides| - 1;
    var prefix := peptides[..n];
    if MolMassCollection(prefix, table).Err? {
      MolMassCollectionError(prefix, table);
      var k :| 0 <= k < n && !AllKnown(prefix[k], table)
               && (forall j :: 0 <= j < k ==> AllKnown(prefix[j], table))
               && MolMassCollection(prefix, table).error == MolMass(prefix[k], table).error;
      assert prefix[k] == peptides[k];
      assert forall j :: 0 <= j < k ==> prefix[j] == peptides[j];
    } else {
      assert forall j :: 0 <= j < n ==> prefix[j] == peptides[j];
    }
  }

  /** `calculate_mol_mass_collection`. */
  method CalculateMolMassCollection(peptides: seq<string>, table: map<char, real>) returns (r: Result<map<string, real>>)
    ensures r == MolMassCollection(peptides, table)
  {
    var peptideMass: map<string, real> := map[];
    for i := 0 to |peptides|
      invariant MolMassCollection(peptides[..i], table) == Ok(peptideMass)
    {
      assert peptides[..i + 1][..i] == peptides[..i];
      var mass := PeptideMass(peptides[i], table);
      if mass.Err? {
        CollectionErrorKept(peptides, i + 1, table);
        return Err(mass.error);
      }
      peptideMass := peptideMass[peptides[i] := mass.value];
    }
    assert peptides[..|peptides|] == peptides;
    r := Ok(peptideMass);
  }

  /** Once a prefix of the list has failed, so has the whole list, with the same error. */
  lemma {:induction false} CollectionErrorKept(peptides: seq<string>, k: nat, table: map<char, real>)
    requires k <= |peptides|
    requires MolMassCollection(peptides[..k], table).Err?
    ensures MolMassCollection(peptides, table) == MolMassCollection(peptides[..k], table)
    decreases |peptides| - k
  {
    if k < |peptides| {
      assert peptides[..k + 1][..k] == peptides[..k];
      CollectionErrorKept(peptides, k + 1, table);
    } else {
      assert peptides[..k] == peptides;
    }
  }

  // ---------------------------------------------------------------------
  // m/z values
  // ---------------------------------------------------------------------

  const DefaultCharge: int := 2
  const DefaultProtonMass: real := 1.007

  const ChargeZeroMessage: string := "Charge is 0. Division by 0 is not possible"
  const ProtonNegativeMessage: string := "Proton mass is negative"
  const MassNegativeMessage: string := "Peptide mass is negative"

  /**
   * The m/z of a peptide of mass `mass` carrying `charge` protons:
   * (mass + charge * protonMass) / charge. Taking away the protons from
   * `charge` times the m/z gives the mass back.
   */
  function MzValue(mass: real, charge: int, protonMass: real): (mz: real)
    requires charge != 0
    ensures mz * (charge as real) - (charge as real) * protonMass == mass
  {
    (mass + (charge as real) * protonMass) / (charge as real)
  }

  /** For a positive charge and mass, the m/z lies above the proton mass. */
  lemma MzAboveProton(mass: real, charge: int, protonMass: real)
    requires charge > 0 && mass > 0.0
    ensures MzValue(mass, charge, protonMass) > protonMass
  {
  }

  /** For a positive charge, a heavier peptide has a larger m/z. */
  lemma MzMonotone(m1: real, m2: real, charge: int, protonMass: real)
    requires charge > 0 && m1 < m2
    ensures MzValue(m1, charge, protonMass) < MzValue(m2, charge, protonMass)
  {
  }

  /**
   * `calculate_mz_collection`. The charge is checked first, then the proton
   * mass, then every peptide mass (zero included, despite the message); on
   * success every peptide keeps its key and gets its m/z.
   */
  method CalculateMzCollection(peptideMassMap: map<string, real>, charge: int, protonMass: real)
    returns (r: Result<map<string, real>>)
    ensures charge == 0 ==> r == Err(ChargeZeroMessage)
    ensures charge != 0 && protonMass < 0.0 ==> r == Err(ProtonNegativeMessage)
    ensures charge != 0 && protonMass >= 0.0 ==>
              (r.Err? <==> exists p :: p in peptideMassMap && peptideMassMap[p] <= 0.0)
    ensures charge != 0 && protonMass >= 0.0 && r.Err? ==> r.error == MassNegativeMessage
    ensures r.Ok? ==> charge != 0 && r.value.Keys == peptideMassMap.Keys
    ensures r.Ok? ==> forall p :: p in r.value ==> r.value[p] == MzValue(peptideMassMap[p], charge, protonMass)
  {
    if charge == 0 {
      return Err(ChargeZeroMessage);
    }
    if protonMass < 0.0 {
      return Err(ProtonNegativeMessage);
    }
    var peptidesMzValue: map<string, real> := map[];
    var remaining := peptideMassMap.Keys;
    while remaining != {}
      invariant remaining <= peptideMassMap.Keys
      invariant peptidesMzValue.Keys == peptideMassMap.Keys - remaining
      invariant forall p :: p in peptidesMzValue ==> peptideMassMap[p] > 0.0
      invariant forall p :: p in peptidesMzValue ==> peptidesMzValue[p] == MzValue(peptideMassMap[p], charge, protonMass)
      decreases |remaining|
    {
      var pep :| pep in remaining;
      if peptideMassMap[pep] <= 0.0 {
        return Err(MassNegativeMessage);
      }
      peptidesMzValue := peptidesMzValue[pep := MzValue(peptideMassMap[pep], charge, protonMass)];
      remaining := remaining - {pep};
    }
    r := Ok(peptidesMzValue);
  }

  // ---------------------------------------------------------------------
  // Fragments
  // ---------------------------------------------------------------------

  predicate IsPrefix(f: string, p: string) {
    |f| <= |p| && f == p[..|f|]
  }

  predicate IsSuffix(f: string, p: string) {
    |f| <= |p| && f == p[|p| - |f|..]
  }

  /**
   * `fragment_peptide`: the b ions (the prefixes `p[..i]`) followed by the
   * y ions (the suffixes `p[i..]`), for i from 1 to |p| - 1. The two lists
   * are of equal length, and each b ion and the y ion at the same place
   * make up the peptide.
   */
  function FragmentPeptide(p: string): (fragments: seq<string>)
    ensures |fragments| == if |p| <= 1 then 0 else 2 * (|p| - 1)
    ensures forall i :: 0 <= i < |fragments| / 2 ==> fragments[i] + fragments[|fragments| / 2 + i] == p
  {
    var n := if |p| <= 1 then 0 else |p| - 1;
    var bIons := seq(n, i requires 0 <= i < n => p[..i + 1]);
    var yIons := seq(n, i requires 0 <= i < n => p[i + 1..]);
    var fragments := bIons + yIons;
    forall i | 0 <= i < n
      ensures fragments[i] + fragments[n + i] == p
    {
      assert fragments[i] == p[..i + 1] && fragments[n + i] == p[i + 1..];
      assert p[..i + 1] + p[i + 1..] == p;
    }
    fragments
  }

  /**
   * The fragments are exactly the non-empty proper prefixes and suffixes of
   * the peptide: never "" and never the whole peptide.
   */
  lemma FragmentMembers(p: string, f: string)
    ensures f in FragmentPeptide(p) <==> 0 < |f| < |p| && (IsPrefix(f, p) || IsSuffix(f, p))
  {
    var fragments := FragmentPeptide(p);
    var n := |fragments| / 2;
    if f in fragments {
      var k :| 0 <= k < |fragments| && fragments[k] == f;
      if k < n {
        assert fragments[k] + fragments[n + k] == p;
        assert |fragments[k]| == k + 1 by {
          assert fragments[k] == p[..k + 1];
        }
      } else {
        assert fragments[k - n] + fragments[k] == p;
        assert fragments[k] == p[k - n + 1..];
      }
    }
    if 0 < |f| < |p| && (IsPrefix(f, p) || IsSuffix(f, p)) {
      if IsPrefix(f, p) {
        assert fragments[|f| - 1] == f;
      } else {
        assert fragments[n + |p| - |f| - 1] == f;
      }
    }
  }

  /** The b ions come in increasing length, the y ions in decreasing length. */
  lemma FragmentOrder(p: string, i: nat)
    requires |p| >= 2 && i < |p| - 1
    ensures |FragmentPeptide(p)[i]| == i + 1
    ensures |FragmentPeptide(p)[|p| - 1 + i]| == |p| - 1 - i
  {
  }

  /** The fragments of "ABCD" are A, AB, ABC, BCD, CD and D. */
  lemma FragmentExample()
    ensures FragmentPeptide("ABCD") == ["A", "AB", "ABC", "BCD", "CD", "D"]
  {
    var p := "ABCD";
    assert p[..1] == "A" && p[..2] == "AB" && p[..3] == "ABC";
    assert p[1..] == "BCD" && p[2..] == "CD" && p[3..] == "D";
  }

  /** The masses of a b ion and its y ion add up to the mass of the peptide. */
  lemma FragmentMasses(p: string, i: nat, table: map<char, real>)
    requires |p| >= 2 && i < |p| - 1
    requires AllKnown(p, table)
    ensures var f := FragmentPeptide(p);
      MolMass(f[i], table).value + MolMass(f[|p| - 1 + i], table).value == MolMass(p, table).value
  {
    var f := FragmentPeptide(p);
    assert f[i] + f[|p| - 1 + i] == p;
    MolMassAppend(f[i], f[|p| - 1 + i], table);
  }

  // ---------------------------------------------------------------------
  // Worked values
  // ---------------------------------------------------------------------

  /** A residue mass table in Daltons, one entry per standard amino acid. */
  const ExampleTable: map<char, real> := map[
    'A' := 71.08, 'R' := 156.19, 'N' := 114.10, 'D' := 115.09,
    'C' := 103.15, 'E' := 129.12, 'Q' := 128.13, 'G' := 57.05,
    'H' := 137.14, 'I' := 113.16, 'L' := 113.16, 'K' := 128.17,
    'M' := 131.19, 'F' := 147.18, 'P' := 97.12, 'S' := 87.08,
    'T' := 101.11, 'W' := 186.21, 'Y' := 163.18, 'V' := 99.13]

  /** "ARGPEPKL" weighs 849.01 Da. */
  lemma MolMassExample()
    ensures MolMass("ARGPEPKL", ExampleTable) == Ok(849.01)
  {
    var p := "ARGPEPKL";
    assert p[..0] == [] && p[..1][..0] == [];
    assert MolMass(p[..1], ExampleTable) == Ok(71.08);
    assert p[..2][..1] == p[..1];
    assert MolMass(p[..2], ExampleTable) == Ok(227.27);
    assert p[..3][..2] == p[..2];
    assert MolMass(p[..3], ExampleTable) == Ok(284.32);
    assert p[..4][..3] == p[..3];
    assert MolMass(p[..4], ExampleTable) == Ok(381.44);
    assert p[..5][..4] == p[..4];
    assert MolMass(p[..5], ExampleTable) == Ok(510.56);
    assert p[..6][..5] == p[..5];
    assert MolMass(p[..6], ExampleTable) == Ok(607.68);
    assert p[..7][..6] == p[..6];
    assert MolMass(p[..7], ExampleTable) == Ok(735.85);
    assert p[..8][..7] == p[..7] && p[..8] == p;
  }

  /** "CDFZERA" fails on Z, the one residue the table lacks. */
  lemma UnknownResidueExample()
    ensures MolMass("CDFZERA", ExampleTable) == Err("Aminoacid not known: Z")
  {
    var p := "CDFZERA";
    assert p[3] !in ExampleTable;
    assert AllKnown(p[..3], ExampleTable);
    assert p[..4][..3] == p[..3];
    assert MolMass(p[..4], ExampleTable) == Err(UnknownResidue('Z'));
    MolMassErrorKept(p, 4, ExampleTable);
  }

  /** With charge 2 and proton mass 1.007, a mass of 617.71 Da has m/z 309.862. */
  lemma MzExample()
    ensures MzValue(617.71, DefaultCharge, DefaultProtonMass) == 309.862
    ensures MzValue(622.81, DefaultCharge, DefaultProtonMass) == 312.412
    ensures MzValue(573.71, DefaultCharge, DefaultProtonMass) == 287.862
  {
  }
}
