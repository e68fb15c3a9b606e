# Proteomics pipeline core in Dafny

This project models the computational core of a small proteomics toolkit. The toolkit:

- reads protein sequences from FASTA files;
- digests them in silico with a protease;
- filters the resulting peptides by length;
- measures how much of a protein the peptides cover;
- computes peptide masses, m/z values and b/y-ion fragments;
- selects peptides by retention time.

There is one Dafny module per source file:

| module | file | source |
|---|---|---|
| `Wrappers` | `wrappers.dfy` | `Option` and `Result`, used for lookups and raised errors |
| `CleavagePatterns` | `cleavage_patterns.dfy` | the enzyme registry (`proteomics/cleavage_patterns.py`) |
| `ProteinDigestion` | `protein_digestion.dfy` | `digest_protein_sequence`, `digest_protein_collection`, `compute_sequence_coverage` |
| `FileHandling` | `file_handling.dfy` | the line loop of `read_fasta` |
| `MassSpectraSimulation` | `mass_spectra_simulation.dfy` | `calculate_mol_mass`, `calculate_mol_mass_collection`, `calculate_mz_collection`, `fragment_peptide` |
| `LiquidChromatography` | `liquid_chromatography.dfy` | `select_retention_time_window` |

Modelling choices:

- **Cleavage patterns.** Each regular expression in the registry is a zero-width lookaround. It is written out as the predicate `IsCut(e, s, p)` over the boundaries `0..|s|` of a sequence. `re.split` on such a pattern cuts at every boundary where the predicate holds. `Cuts` lists those boundaries in ascending order, and `Split` returns the pieces between consecutive bounds `[0] + Cuts + [|s|]`. A cut at the start or at the end therefore gives an empty piece, as `re.split` does from Python 3.7 on. Python 3.6 and earlier raise `ValueError` for a pattern that can only match the empty string, so the model follows the Python 3.7 semantics.
- **Trypsin example.** The model follows the pattern `(?<=[KR])(?!P)` as written. On `"AKPKRA"` it cuts between `K` and `R` as well, so the result is `["AKPK", "R", "A"]` (`ProteinDigestion.TrypsinExample`), not `["AKPKR", "A"]`.
- **Diagnostic string.** `'Nr. of digested peptides: {n}'` is modelled by its number `n` (`Digestion.count`).
- **Coverage.** Coverage is specified as the set of positions inside an occurrence of some peptide, overlapping occurrences included. The `while True` scan over `str.find` is a method proved against that set.
- **FASTA.** `read_fasta` is modelled over the lines already read from the file, newlines included.
  - Each line is classified once by `Classify`, after `str.strip()`: it is blank, a header with its `|`-separated fields, or sequence text.
  - The loop (`ReadFasta`) is proved equal to `ParseFasta`, a fold of `Step` over those kinds. The `IndexError` that `split('|')[1]` raises is an `Err` result.
- **Numbers.** Masses, m/z values, retention times and percentages are exact `real`s.
- **Mass table.** The residue mass table is a parameter of type `map<char, real>`.

## Model

| member | source | states |
|---|---|---|
| CleavagePatterns.Lookup | proteomics/cleavage_patterns.py:1-6 | The registry holds exactly the names LysC, LysN, ArgC and Trypsin. Each name gives the enzyme of that name, and any other name gives nothing (a `KeyError`). |
| CleavagePatterns.IsCut | proteomics/cleavage_patterns.py:2-5 | The four lookarounds as a predicate on the boundaries `0..len(s)`: after a `K`, before a `K`, after an `R`, and after a `K` or `R` not followed by `P`. Its content is what `Cuts`, `CutAfterPieces`, `LysNPieces` and `TrypsinPieces` state. |
| CleavagePatterns.TrypsinCutsAreLysCOrArgC | proteomics/cleavage_patterns.py:2-5 | Every Trypsin site is a LysC or an ArgC site: `(?!P)` only removes sites. |
| ProteinDigestion.CutsFrom | proteomics/protein_digestion.py:21 | The boundaries from `p` on that are cut sites, exactly, in ascending order and in range. |
| ProteinDigestion.Cuts | proteomics/protein_digestion.py:21 | A boundary is listed if and only if it is a cut site of the enzyme. The list is ascending. |
| ProteinDigestion.Split | proteomics/protein_digestion.py:21 | `re.split` on a zero-width pattern: the pieces between the bounds `[0] + Cuts + [len(s)]`. Their text and count are fixed by `SplitPiece` and `SplitConcat`. |
| ProteinDigestion.Pieces | proteomics/protein_digestion.py:21 | Cutting at the boundaries gives one piece more than there are cuts. The pieces concatenate back to the text. |
| ProteinDigestion.PieceAt | proteomics/protein_digestion.py:21 | Piece `k` is the text between bound `k` and bound `k + 1`. |
| ProteinDigestion.SplitPiece | proteomics/protein_digestion.py:21 | Each split piece lies between consecutive bounds. Every inner bound is a cut site, and no boundary strictly inside a piece is one. |
| ProteinDigestion.SplitConcat | proteomics/protein_digestion.py:21 | Split round trip: the pieces, in order, concatenate to the sequence. There is one piece more than there are cut sites. |
| ProteinDigestion.DigestProteinSequence | proteomics/protein_digestion.py:4-23 | The peptides concatenate to the protein and number one more than the cut sites. The reported count is the number of peptides. |
| ProteinDigestion.DigestEmptySequence | proteomics/protein_digestion.py:21-23 | The empty protein splits into `[""]`, with count 1. |
| ProteinDigestion.EndCutIsLast | proteomics/protein_digestion.py:21 | A cut site at the end of the sequence is the last cut, which leaves an empty last piece. |
| ProteinDigestion.StartCutIsFirst | proteomics/protein_digestion.py:21 | A cut site at the start is the first cut, which leaves an empty first piece. |
| ProteinDigestion.CutAfterPieces | proteomics/cleavage_patterns.py:2-4 | LysC (K) and ArgC (R) pieces: every piece but the last ends with the residue and holds it nowhere else. The last piece does not hold it. |
| ProteinDigestion.LysNPieces | proteomics/cleavage_patterns.py:3 | LysN pieces: every piece but the first starts with K and holds no other K. The first piece holds no K. |
| ProteinDigestion.TrypsinPieces | proteomics/cleavage_patterns.py:5 | Trypsin pieces: inside a piece every K or R is followed by P. Every piece but the last ends with K or R, and the next piece does not start with P. |
| ProteinDigestion.TrypsinExample | proteomics/cleavage_patterns.py:5 | `"AKPKRA"` splits into `["AKPK", "R", "A"]`. |
| ProteinDigestion.LysCTrailingExample | proteomics/protein_digestion.py:21 | A trailing K under LysC gives a trailing empty piece: `"AK"` splits into `["AK", ""]`. |
| ProteinDigestion.LysNLeadingExample | proteomics/protein_digestion.py:21 | A leading K under LysN gives a leading empty piece: `"KA"` splits into `["", "KA"]`. |
| ProteinDigestion.FilterByLength | proteomics/protein_digestion.py:59 | Keeps exactly the pieces with length in `lo..hi`, each as often as it occurs, in order (an order-preserving subsequence). |
| ProteinDigestion.DigestProtein | proteomics/protein_digestion.py:53-61 | An empty sequence gives no peptides and count 0. The count is always the number of peptides kept. |
| ProteinDigestion.RetainedPeptides | proteomics/protein_digestion.py:58-61 | For a non-empty sequence, the peptides kept are exactly the split pieces within the bounds, with multiplicity and in split order. The count is taken after filtering. |
| ProteinDigestion.EmptySequenceShortCircuit | proteomics/protein_digestion.py:54-56 | The empty protein gives `[]` even when length 0 is admitted. Filtering its split would have kept `""`. |
| ProteinDigestion.DigestedProteins | proteomics/protein_digestion.py:47-63 | The result has exactly the protein ids as keys. |
| ProteinDigestion.BoundSwap | proteomics/protein_digestion.py:47-48 | Exchanging the minimum and maximum length gives the same result, never an error. |
| ProteinDigestion.DigestProteinCollection | proteomics/protein_digestion.py:26-63 | Same keys as the input. Each entry is the digestion of that protein alone, with the bounds put in order. The bounds default to 5 and 30 (`DefaultMinPepLen`, `DefaultMaxPepLen`). |
| ProteinDigestion.Find | proteomics/protein_digestion.py:87 | `str.find`: -1 exactly when there is no occurrence at or after `start`. Otherwise it returns the first such occurrence. |
| ProteinDigestion.Span | proteomics/protein_digestion.py:90 | `range(lo, hi)` as a set: exactly the integers `lo <= i < hi`. |
| ProteinDigestion.CoverageSnoc | proteomics/protein_digestion.py:84-91 | Covering one more peptide adds exactly the positions of its occurrences. |
| ProteinDigestion.CoveragePercent | proteomics/protein_digestion.py:81-92 | 0 for an empty sequence or no peptides. Otherwise the share of positions covered by some occurrence, times 100. `ComputeSequenceCoverage` is proved equal to it, and `CoveragePercentBounds` bounds it. |
| ProteinDigestion.CoverageBounds | proteomics/protein_digestion.py:83-92 | Covered positions are positions of the sequence. When the sequence is itself a peptide, every position is covered. |
| ProteinDigestion.CoveragePercentBounds | proteomics/protein_digestion.py:92 | The percentage lies in [0, 100], and is 100 when the non-empty sequence is among the peptides. |
| ProteinDigestion.EmptyPeptideCoversNothing | proteomics/protein_digestion.py:87-91 | An empty peptide adds no covered position. |
| ProteinDigestion.MarkOccurrences | proteomics/protein_digestion.py:85-91 | The `find` scan for one peptide adds exactly the positions of all its occurrences, overlapping ones included. It terminates, also for `""`. |
| ProteinDigestion.ComputeSequenceCoverage | proteomics/protein_digestion.py:66-94 | 0 for an empty sequence or an empty peptide list. Otherwise it is the covered share of positions as a percentage, in [0, 100], and 100 when the sequence is among the peptides. |
| ProteinDigestion.OverlapExample | proteomics/protein_digestion.py:84-92 | Overlapping occurrences count: `"AA"` covers all of `"AAAA"` (100%). |
| ProteinDigestion.PartialExample | proteomics/protein_digestion.py:92 | `"MKV"` covers 37.5% of `"MKVLATGG"`. |
| FileHandling.StripStart | proteomics/file_handling.py:21 | Drops exactly the leading whitespace (a suffix of the input remains, starting with a non-space). |
| FileHandling.StripEnd | proteomics/file_handling.py:21 | Drops exactly the trailing whitespace. |
| FileHandling.IsSpace | proteomics/file_handling.py:21 | The characters `str.isspace()` accepts, which `strip()` removes. |
| FileHandling.StripMeaning | proteomics/file_handling.py:21 | The stripped line is the line with a whitespace prefix and a whitespace suffix removed: putting them back gives the line. |
| FileHandling.StripUnique | proteomics/file_handling.py:21 | Conversely, if a line is whitespace, then a text that is empty or has non-space ends, then whitespace, that text is the stripped line. |
| FileHandling.Strip | proteomics/file_handling.py:21 | `str.strip()`: empty exactly when the line is all whitespace. Otherwise it starts and ends with a non-space. |
| FileHandling.SplitOn | proteomics/file_handling.py:28 | `str.split` on the bar character gives at least one field. |
| FileHandling.SplitOnSpec | proteomics/file_handling.py:28 | No field holds the separator, and joining the fields with it gives the text back. There is one field exactly when the separator does not occur. |
| FileHandling.ClassifyMeaning | proteomics/file_handling.py:21-28 | A line is blank exactly when it is all whitespace. It is a header that raises exactly when its stripped text starts with `>` and holds no bar character. |
| FileHandling.Classify | proteomics/file_handling.py:21-28 | The line after `strip()`: blank when empty, a header with its bar-separated fields when it starts with `>`, sequence text otherwise. `ClassifyMeaning` states what each kind means. |
| FileHandling.Kinds | proteomics/file_handling.py:20-21 | One kind per line. |
| FileHandling.KindsAt | proteomics/file_handling.py:20-21 | The loop looks at every line, in order: line `i` has the kind its own text gives it. |
| FileHandling.KindsAppend | proteomics/file_handling.py:20-21 | The kinds of two files put together are the kinds of each, in order. |
| FileHandling.ReadFasta | proteomics/file_handling.py:1-35 | The loop over lines returns what `ParseFasta` specifies, or its `IndexError`. |
| FileHandling.Step | proteomics/file_handling.py:22-30 | One pass of the loop. It raises exactly at a header with fewer than two fields. A header makes its second field the open id, and other lines keep the map and the open id. |
| FileHandling.Flushed | proteomics/file_handling.py:25-33 | With no open record the map is unchanged. Otherwise the open id is added, with the joined buffer as its value. |
| FileHandling.ParseFasta | proteomics/file_handling.py:1-35 | The value `read_fasta` returns, or its error. It is what `ReadFasta` computes, and `ParseKindsFails`, `ParseKindsKeys` and `ParseKindsRecord` state its content. |
| FileHandling.ScanAppend | proteomics/file_handling.py:20-30 | Running the loop over `a + b` is running it over `a` and then over `b`. |
| FileHandling.ScanErrSticky | proteomics/file_handling.py:28 | Once the exception is raised, later lines change nothing. |
| FileHandling.HeaderIdsMembers | proteomics/file_handling.py:24-28 | The header ids are exactly the second bar-separated fields of the header lines. |
| FileHandling.ParseKindsFails | proteomics/file_handling.py:24-28 | The parse fails exactly when some header line has fewer than two bar-separated fields, and then with `IndexError`. |
| FileHandling.ScanShape | proteomics/file_handling.py:15-30 | No record is open exactly when no header was seen yet. In that case the map is empty and all sequence lines seen are buffered. The written and open ids are the header ids seen. |
| FileHandling.NoHeaderNoRecords | proteomics/file_handling.py:29-35 | Lines with no header give `{}`: sequence text before any header is never written out on its own. |
| FileHandling.ParseKindsKeys | proteomics/file_handling.py:24-33 | On success the keys are exactly the header ids. |
| FileHandling.BlankKindIgnored | proteomics/file_handling.py:22-23 | A blank line changes neither result nor error. |
| FileHandling.BlankLineIgnored | proteomics/file_handling.py:21-23 | Removing a whitespace-only line from a file changes neither result nor error. |
| FileHandling.SequenceLines | proteomics/file_handling.py:29-30 | Lines without a header only append their stripped text to the buffer. |
| FileHandling.RecordKept | proteomics/file_handling.py:24-28 | A written record is kept by later lines that do not repeat its id. |
| FileHandling.ParseKindsRecord | proteomics/file_handling.py:24-33 | For a header whose id no later header repeats, the result holds its sequence lines up to the next header or the end, stripped and concatenated. A first header also takes the sequence lines before it, and a header with no sequence lines gets `""`. |
| FileHandling.RecordOpen | proteomics/file_handling.py:24-30 | After a header and its sequence lines, the record is open with their text buffered. The buffer is reset only if a record was already open. |
| FileHandling.RecordClosed | proteomics/file_handling.py:24-33 | The next header, or the end of the file, writes the open record unchanged. |
| FileHandling.StripExample | proteomics/file_handling.py:21 | Stripping the header line `>sp` bar `P1` bar `A` plus newline drops only the newline. |
| FileHandling.SplitExampleTail | proteomics/file_handling.py:28 | A text starting with the bar character splits with an empty first field, then `P1` and `A`. |
| FileHandling.SplitExample | proteomics/file_handling.py:28 | The stripped header splits into the fields `>sp`, `P1` and `A`. |
| FileHandling.HeaderIdExample | proteomics/file_handling.py:28 | That header sets the id `P1`, its second field. |
| MassSpectraSimulation.MolMass | proteomics/mass_spectra_simulation.py:23-31 | The mass exists exactly when every residue is in the table. |
| MassSpectraSimulation.MolMassError | proteomics/mass_spectra_simulation.py:25-27 | The error is `Aminoacid not known: c` for the first residue `c` that is not in the table. |
| MassSpectraSimulation.MolMassAppend | proteomics/mass_spectra_simulation.py:24-29 | Mass is additive over concatenation. |
| MassSpectraSimulation.MolMassPositive | proteomics/mass_spectra_simulation.py:24-29 | With positive residue masses, a non-empty peptide has positive mass and `""` has mass 0. |
| MassSpectraSimulation.PeptideMass | proteomics/mass_spectra_simulation.py:24-29 | The accumulating loop returns `MolMass`, raising at the first unknown residue. |
| MassSpectraSimulation.MolMassErrorKept | proteomics/mass_spectra_simulation.py:26-27 | An unknown residue in a prefix fails the whole peptide with the same error. |
| MassSpectraSimulation.CalculateMolMass | proteomics/mass_spectra_simulation.py:5-31 | Succeeds exactly when every residue is known, returning the one-entry map from the peptide to its mass. Otherwise it returns the first unknown residue's error. |
| MassSpectraSimulation.MolMassCollection | proteomics/mass_spectra_simulation.py:56-66 | Succeeds exactly when every peptide's residues are all known. The keys are the set of peptides, so duplicates collapse, and each value is that peptide's mass. |
| MassSpectraSimulation.MolMassCollectionError | proteomics/mass_spectra_simulation.py:58-62 | The error is that of the first peptide holding an unknown residue. |
| MassSpectraSimulation.CalculateMolMassCollection | proteomics/mass_spectra_simulation.py:34-66 | The loop over peptides returns `MolMassCollection`. |
| MassSpectraSimulation.CollectionErrorKept | proteomics/mass_spectra_simulation.py:61-62 | A failure in a prefix of the list fails the whole list with the same error. |
| MassSpectraSimulation.MzValue | proteomics/mass_spectra_simulation.py:101 | Inverse: `charge * mz - charge * protonMass` is the mass. |
| MassSpectraSimulation.MzAboveProton | proteomics/mass_spectra_simulation.py:101 | For positive charge and mass, the m/z exceeds the proton mass. |
| MassSpectraSimulation.MzMonotone | proteomics/mass_spectra_simulation.py:101 | For positive charge, a heavier peptide has a larger m/z. |
| MassSpectraSimulation.CalculateMzCollection | proteomics/mass_spectra_simulation.py:69-104 | Checks in order: charge 0, then negative proton mass, then any mass `<= 0` (zero included), each with its message. On success the keys are unchanged and each value is `MzValue`. |
| MassSpectraSimulation.FragmentPeptide | proteomics/mass_spectra_simulation.py:154-157 | There are `2(n-1)` fragments for `n >= 2` and none otherwise. Each b ion and the y ion at the same place concatenate to the peptide. |
| MassSpectraSimulation.FragmentMembers | proteomics/mass_spectra_simulation.py:154-155 | The fragments are exactly the non-empty proper prefixes and suffixes, never `""` or the peptide itself. |
| MassSpectraSimulation.FragmentOrder | proteomics/mass_spectra_simulation.py:154-157 | b ions come in increasing length `1..n-1` and y ions in decreasing length. |
| MassSpectraSimulation.FragmentExample | tests/test_mass_spectra_simulation.py:94-99 | The fragments of `"ABCD"` are `A, AB, ABC, BCD, CD, D`. |
| MassSpectraSimulation.FragmentMasses | proteomics/mass_spectra_simulation.py:154-155 | A b ion and its y ion weigh as much as the peptide. |
| MassSpectraSimulation.MolMassExample | tests/test_mass_spectra_simulation.py:9-23 | `"ARGPEPKL"` weighs 849.01 Da. |
| MassSpectraSimulation.UnknownResidueExample | tests/test_mass_spectra_simulation.py:25-29 | `"CDFZERA"` fails with `Aminoacid not known: Z`. |
| MassSpectraSimulation.MzExample | tests/test_mass_spectra_simulation.py:57-77 | At charge 2 and proton mass 1.007, the masses 617.71, 622.81 and 573.71 have m/z 309.862, 312.412 and 287.862. |
| LiquidChromatography.Window | proteomics/liquid_chromatography.py:76-82 | The window's keys are input keys. |
| LiquidChromatography.SelectRetentionTimeWindow | proteomics/liquid_chromatography.py:55-82 | Keeps exactly the peptides with `lower <= rt <= upper`, both ends included, and copies their retention times unchanged. |
| LiquidChromatography.WindowIdempotent | proteomics/liquid_chromatography.py:76-82 | Selecting again with the same window changes nothing. |
| LiquidChromatography.WindowInverted | proteomics/liquid_chromatography.py:79 | With `lower > upper` nothing is selected: the bounds are not swapped. |
| LiquidChromatography.WindowNested | proteomics/liquid_chromatography.py:78-80 | Selecting with an inner window after an outer one is selecting with the inner one. |
| LiquidChromatography.WindowAll | proteomics/liquid_chromatography.py:78-80 | A window holding every retention time keeps the whole map. |

## Left out

- `plot_spectrum` and `plot_retention_time`: plotting and random intensities; nothing to prove.
- `predict_lc_retention_times`: a call into an external retention-time model, followed by float rounding.
- The regular-expression engine.
  - Only the four registered patterns are modelled, each as the explicit boundary predicate `IsCut`.
  - A caller passing another pattern string to `digest_protein_sequence` or `digest_protein_collection` is not modelled.
- IEEE floating point. Masses, m/z, retention times and coverage are exact reals, so float rounding of sums and quotients is not captured.
- ComputeSequenceCoverage: returns the real 0.0 where the source returns the integer 0 for an empty sequence or peptide list.
- Rendering of the `'Nr. of digested peptides: {n}'` string: only the number `n` is kept.
- File access in `read_fasta`: opening the file and UTF-8 decoding. The input is the sequence of lines the file iterates to.
- Dictionary iteration order.
  - `DigestProteinCollection`, `CalculateMzCollection` and `SelectRetentionTimeWindow` visit keys in an unspecified order.
  - Their results are maps and do not depend on it.
  - `CalculateMzCollection` raises the same message whichever non-positive mass it meets first.
- CalculateMzCollection: the charge is an integer. The source accepts any number there, and its default and documentation give an integer.
- FileHandling.ParseKindsRecord: covers each id at its last header. When an id is repeated, the last record overwrites the earlier ones. The lemma therefore only speaks of a header whose id no later header repeats.
- `proteomics/__init__.py` and the mass table module the tests import: re-exports and a data table; the table is a parameter here.
