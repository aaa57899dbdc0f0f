# Dog DNA parentage analysis: a verified model

This project models the parentage-verification engine of
`DogDNAParentageAnalyzer` in `scripts/dog_parentage_analysis.py`. The engine
takes three DNA profiles (mother, father, offspring), each mapping a MarkerID
to a raw genotype cell such as `"142/150"`, `"A|B"` or `"C"`. At every marker
the three dogs share, it checks whether the offspring could have inherited one
allele from each parent. It then counts the markers and classifies the result
with two threshold ladders.

The model has seven modules, one per component of the engine:

- `Optional` (`optional.dfy`): the `Option` type, for a cell that is missing,
  a genotype that does not parse, and an analysis that has not run.
- `Ordering` (`ordering.dfy`):
  - the code-point lexicographic order that Python's `sorted` uses on strings;
  - a sort proved to return the unique ascending rearrangement of its input;
  - the ascending listing of a set of MarkerIDs, produced by a loop.
- `Text` (`text.dfy`): Python's `str.strip()`, `str.split(sep)` and
  `sep.join(...)`, with the facts about them the parser relies on.
- `Genotypes` (`genotype.dfy`): `parse_genotype`.
- `Mendelian` (`mendelian.dfy`): `check_mendelian_inheritance`. It is written
  as a method with the source's two nested loops, proved against a
  declarative verdict.
- `Classification` (`classification.dfy`): the confidence ladder, the
  conclusion ladder and the consistency rate.
- `Parentage` (`analyzer.dfy`): the analyzer class with its `profiles` and
  `analysisResults` fields, the marker loop of `analyze_parentage`, and a
  marker-by-marker specification of the whole analysis.

Where the code and its documented intent differ, the model follows the code:

- The emptiness test in `parse_genotype` (line 82) runs before the strip
  (line 85). So a cell of whitespace only is not treated as missing: it
  parses to two empty tokens (`Genotypes.ParseWhitespaceOnly`).
- The parser does not enforce two alleles. `"A/B/C"` parses to three tokens,
  and `"A/"` to `["", "A"]`. A genotype is therefore modelled as a sequence
  of any length.
- The Mendelian check enumerates `|p1| × |p2|` pairs, not always four. A
  three-token offspring genotype is never consistent
  (`Mendelian.ConsistentHasTwoAlleles`).
- A marker is skipped only when a cell is missing or empty. Any other
  string counts as testable (`Parentage.ExamineSkipsEmptyCells`).

## Model

| member | source | states |
|---|---|---|
| `Ordering.SortSpec` | scripts/dog_parentage_analysis.py:96 | `sorted(...)` returns an ascending list that is a rearrangement of its input and has the same length |
| `Ordering.SortPermutationInvariant` | scripts/dog_parentage_analysis.py:96 | sorting depends only on the multiset of tokens: any two rearrangements of one list sort to the same list |
| `Ordering.SortOfSorted` | scripts/dog_parentage_analysis.py:96 | sorting an already ascending list leaves it unchanged |
| `Ordering.SortPair` | scripts/dog_parentage_analysis.py:107 | `sorted([a, b])` is `[a, b]` when `a <= b` and `[b, a]` otherwise, so it does not depend on the order of `a` and `b` |
| `Ordering.SortedMarkers` | scripts/dog_parentage_analysis.py:178 | `sorted(common_markers)` lists every common MarkerID exactly once, in strictly ascending order (the unique such listing) |
| `Text.StripSpec` | scripts/dog_parentage_analysis.py:85 | `strip()` removes leading and trailing whitespace and nothing else: the result neither starts nor ends with whitespace, and it sits between two all-whitespace pieces of the input |
| `Text.SplitPieces` | scripts/dog_parentage_analysis.py:89-91 | `split(sep)` gives pieces without `sep`, and at least two pieces when `sep` occurs |
| `Text.JoinSplit` | scripts/dog_parentage_analysis.py:89 | joining the pieces of `split(sep)` with `sep` gives back the original string |
| `Text.SplitJoin` | scripts/dog_parentage_analysis.py:315-317 | splitting a `sep`-join of one or more `sep`-free pieces gives back the pieces |
| `Text.StripBeforeSplitRedundant` | scripts/dog_parentage_analysis.py:85-96 | stripping each piece after the split makes the strip of the whole string redundant |
| `Genotypes.ParseGenotype` | scripts/dog_parentage_analysis.py:80-96 | the result is missing exactly for a missing or empty cell, and is otherwise sorted |
| `Genotypes.ParsedTokens` | scripts/dog_parentage_analysis.py:88-96 | a parsed genotype has at least two tokens, each already stripped and none containing `/` |
| `Genotypes.ParseSplitsRawCell` | scripts/dog_parentage_analysis.py:85-96 | parsing a non-empty cell equals sorting the stripped pieces of the raw cell under the separator rule |
| `Genotypes.SlashTakesPrecedence` | scripts/dog_parentage_analysis.py:88-91 | a cell holding both `/` and `\|` is split on `/` |
| `Genotypes.ParseHomozygous` | scripts/dog_parentage_analysis.py:92-94 | a non-empty cell with neither separator parses to `[t, t]`, where `t` is the stripped cell |
| `Genotypes.ParseWhitespaceOnly` | scripts/dog_parentage_analysis.py:82-94 | a non-empty, all-whitespace cell parses to `["", ""]`, not to a missing genotype |
| `Genotypes.StripAllPermutation` | scripts/dog_parentage_analysis.py:96 | stripping each token of two rearrangements of one list gives two rearrangements of one list |
| `Genotypes.ParseOrderInvariant` | scripts/dog_parentage_analysis.py:88-96 | any rearrangement of the tokens of a `/`-separated cell parses to the same genotype |
| `Genotypes.ParseUnorderedPair` | scripts/dog_parentage_analysis.py:88-96 | `"x/y"` parses to the sorted pair of stripped tokens, and `"x/y"` and `"y/x"` parse alike |
| `Genotypes.ParsePipeLikeSlash` | scripts/dog_parentage_analysis.py:88-91 | `"x\|y"` parses like `"x/y"` when the tokens hold neither separator |
| `Genotypes.ParseJoinRoundTrip` | scripts/dog_parentage_analysis.py:315-317 | parsing the `/`-join of any parsed genotype, as the report renders it, gives back the same genotype |
| `Mendelian.CandidatesLength` | scripts/dog_parentage_analysis.py:104-107 | the candidate list holds exactly `\|p1\| · \|p2\|` entries |
| `Mendelian.CandidateAt` | scripts/dog_parentage_analysis.py:104-107 | entry `i·\|p2\| + j` of the candidate list is `sorted([p1[i], p2[j]])`, in nested-loop order |
| `Mendelian.CandidatesMembership` | scripts/dog_parentage_analysis.py:104-111 | a genotype is on the candidate list exactly when it is the sorted pair of one allele of each parent |
| `Mendelian.CandidatesSet` | scripts/dog_parentage_analysis.py:113 | the set of candidates is the set of sorted pairs `(a, b)` with `a` from parent 1 and `b` from parent 2 |
| `Mendelian.CheckMendelianInheritance` | scripts/dog_parentage_analysis.py:98-116 | the nested loops and the look-up return the verdict: missing data when a genotype is falsy, and otherwise whether the sorted offspring genotype is a formable pair, together with the expected set and the sorted offspring genotype |
| `Mendelian.VerdictMeansOneFromEach` | scripts/dog_parentage_analysis.py:98-111 | consistent if and only if all three genotypes are present and the offspring holds exactly one allele of each parent, as a multiset |
| `Mendelian.ConsistentHasTwoAlleles` | scripts/dog_parentage_analysis.py:110-111 | a consistent offspring genotype has exactly two alleles |
| `Mendelian.VerdictSymmetric` | scripts/dog_parentage_analysis.py:104-116 | swapping the two parents changes neither the verdict nor the detail |
| `Mendelian.VerdictOffspringOrder` | scripts/dog_parentage_analysis.py:110 | the order of the offspring's alleles does not affect the verdict |
| `Mendelian.VerdictMissing` | scripts/dog_parentage_analysis.py:100-101 | a missing or empty genotype in any position gives `(False, "Missing genotype data")` |
| `Mendelian.HomozygousParents` | scripts/dog_parentage_analysis.py:104-111 | A/A × B/B admits exactly the offspring A/B, in either order |
| `Mendelian.HomozygousParentsExcludeStranger` | scripts/dog_parentage_analysis.py:104-111 | A/A × B/B against offspring C/C is inconsistent |
| `Mendelian.SharedAlleleParents` | scripts/dog_parentage_analysis.py:104-111 | A/B × A/C against offspring C/B is consistent |
| `Classification.ConsistencyRate` | scripts/dog_parentage_analysis.py:212-216 | the rate is 0 when nothing is testable, and otherwise a percentage between 0 and 100 that is 100 exactly when every testable marker is consistent and 0 exactly when none is |
| `Classification.RateRange` | scripts/dog_parentage_analysis.py:213 | the ratio `consistent / testable × 100` is non-negative, at most 100 when `consistent <= testable`, 100 only for `consistent = testable`, and 0 only for no consistent marker |
| `Classification.VeryHighBoundary` | scripts/dog_parentage_analysis.py:219-222 | (0 inconsistent, 20 consistent) gives Very High and (0, 19) gives High |
| `Classification.LaddersAgree` | scripts/dog_parentage_analysis.py:219-252 | the confidence is not Low exactly when the conclusion is Confirmed or Likely, exactly when inconsistent ≤ 2 and consistent ≥ 10 |
| `Classification.ExcludedMeansMajorityInconsistent` | scripts/dog_parentage_analysis.py:241-249 | Excluded implies more inconsistent than consistent markers, and a Low confidence |
| `Classification.ConfirmedIsConfident` | scripts/dog_parentage_analysis.py:219-242 | a Confirmed conclusion comes with High or Very High confidence |
| `Classification.ConfidenceMonotone` | scripts/dog_parentage_analysis.py:219-226 | fewer exclusions or more consistent markers never lower the confidence |
| `Classification.WorkedCases` | scripts/dog_parentage_analysis.py:219-252 | (0, 18) is Confirmed with High confidence, (12 inconsistent, 8 consistent) is Excluded with Low confidence, (3, 3) is Inconclusive |
| `Parentage.ExamineMarkers` | scripts/dog_parentage_analysis.py:178-209 | the marker loop leaves `marker_details` equal to the per-marker entries of the markers walked, `exclusions` equal to their inconsistent entries, and the three counters equal to the number of entries, the consistent ones and the exclusions |
| `Parentage.ExclusionsPartition` | scripts/dog_parentage_analysis.py:205-209 | consistent + inconsistent = number of entries |
| `Parentage.ExclusionsMembers` | scripts/dog_parentage_analysis.py:203-209 | an entry is an exclusion exactly when it is a detail that is not consistent |
| `Parentage.ExclusionsAscending` | scripts/dog_parentage_analysis.py:203-209 | the exclusions keep the ascending marker order of the details |
| `Parentage.DetailsLength` | scripts/dog_parentage_analysis.py:183-187 | at most one entry per marker walked |
| `Parentage.DetailsSound` | scripts/dog_parentage_analysis.py:178-203 | every entry belongs to a walked marker whose three genotypes parse, and is that marker's own genotypes and Mendelian verdict |
| `Parentage.DetailsComplete` | scripts/dog_parentage_analysis.py:178-203 | every walked marker whose three genotypes parse has its entry |
| `Parentage.DetailsAscending` | scripts/dog_parentage_analysis.py:178-203 | walking strictly ascending markers files the entries in strictly ascending marker order |
| `Parentage.ExamineSkipsEmptyCells` | scripts/dog_parentage_analysis.py:179-185 | a common marker is skipped exactly when one of its three cells is empty |
| `Parentage.AnalysisCounts` | scripts/dog_parentage_analysis.py:148-209 | total = size of the intersection of the three MarkerID sets; testable = consistent + inconsistent = number of details ≤ total; inconsistent = number of exclusions |
| `Parentage.AnalysisDetails` | scripts/dog_parentage_analysis.py:148-203 | the details hold one entry for each common marker whose genotypes all parse and for no other marker, in strictly ascending marker order, each entry being that marker's Mendelian check |
| `Parentage.AnalysisExclusions` | scripts/dog_parentage_analysis.py:203-209 | the exclusions are exactly the inconsistent details, in the same ascending marker order |
| `Parentage.AnalysisSummary` | scripts/dog_parentage_analysis.py:212-252 | the rate is 0 without testable markers and at most 100; the stored confidence is not Low exactly when the announced conclusion is Confirmed or Likely |
| `Parentage.ParentageAnalyzer.constructor` | scripts/dog_parentage_analysis.py:30-32 | a new analyzer has no profiles and no analysis result |
| `Parentage.ParentageAnalyzer.StoreProfile` | scripts/dog_parentage_analysis.py:66-71 | storing a profile sets that dog's entry (data, file, sheet, marker count) and leaves the others unchanged |
| `Parentage.ParentageAnalyzer.MissingDogs` | scripts/dog_parentage_analysis.py:127-130 | the missing names are exactly the given names without a loaded profile |
| `Parentage.ParentageAnalyzer.AnalyzeParentage` | scripts/dog_parentage_analysis.py:118-273 | without a profile for one of the three names it returns nothing and leaves `analysis_results` unchanged; otherwise it returns the marker-by-marker analysis of the three profiles and stores it in `analysis_results` |

## Left out

- Profile loading (`load_dog_profile`, lines 34-78) is not modelled: reading the Excel sheet, choosing the sheet, `dropna` and the row cleaning are I/O. The model takes the cleaned MarkerID-to-genotype map as given. Only the storing step (lines 66-71) is modelled, as `StoreProfile`.
- Parentage.ParentageAnalyzer.StoreProfile: the marker count is the number of distinct MarkerIDs. The source counts sheet rows (`len(df)`), which differs when a MarkerID is listed twice. The map keeps the last genotype, as `to_dict` does at lines 172-174.
- `export_detailed_report` (lines 275-343), `get_file_paths`, `check_files_exist` and `main` (lines 346-446) are left out: they write spreadsheets, resolve paths and orchestrate. Only the `/`-join used for rendering genotypes (lines 315-317 and 331-333) appears, in `Genotypes.ParseJoinRoundTrip`.
- Console output is left out, because it is a side effect only. This covers the banners, the low-marker warning (lines 156-158), the result summary, the explanation strings (lines 243-252) and the exclusion listing (lines 258-270). The conclusion is only printed by the source and never stored, so it is the function `ConclusionFor` over the stored counts, not a field.
- Mendelian.CheckMendelianInheritance: the detail is not the exact text of the f-string at line 116. That text prints a Python set whose element order is unspecified. The model keeps what the message is made of: the expected set and the sorted offspring genotype.
- Classification.ConsistencyRate: the rate is an exact real ratio. Float rounding of the division at line 213 is not modelled. The zero case at line 216 is the integer 0 in the source and `0.0` here.
- Genotypes.ParseGenotype: a cell is a string or missing. The `str()` coercion of numeric cells and the full `pd.isna` semantics (lines 82-85) are not modelled.
- Whitespace for `strip()` is the set of code points for which Python's `str.isspace` holds, listed explicitly. Python's sort is modelled by an insertion sort. Because the ascending rearrangement of a list is unique (`Ordering.SortedUnique`), the result is the same as Timsort's.
- Parentage.ParentageAnalyzer.MissingDogs: its contract states which names are missing, not their order or repetition. In the source that order only matters for the printed message.
- The `'Unknown'` placeholder for the confidence (line 168) is never visible in a returned result, because it is always overwritten at lines 219-226. The model therefore stores only the final level.
- MarkerIDs are modelled as strings. The source would also accept numeric IDs that pandas reads from the sheet.
