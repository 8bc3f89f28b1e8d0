# Photon-entanglement analysis core, modelled in Dafny

This project models the sequential logic of three analysis scripts of the
photons_quantum_entanglement repository and proves properties about it:

- **CHSH** (`chsh.py`). The orthogonal-polarisation map on the labels H, V, +
  and -, and the orthogonal analyser angle β + 90. A lookup of a correlation
  reading that must match exactly one (α, β) row. The correlation value
  E(α, β) built from four lookups, and the Bell parameter
  S = E(H, 22.5) + E(+, 22.5) − E(H, 67.5) + E(+, 67.5).
- **HBT** (`hbt.py`). The restriction of the sheet to one (current, duration)
  category, and an exactly-one lookup by measurement name. The coherence
  formulas g2 = N12 / (N1·N2·duration) and g2h = (N0·N012) / (N01·N02). The
  driver `g_calc`, whose nested loops visit every distinct current and then
  every distinct duration of that current, each in order of first appearance,
  and append one record per category.
- **Linear scan** (`linear_scan_to_csv.py`). Separator (`=`) and comment (`#`)
  lines are dropped and newlines removed. Every remaining line is split on
  runs of whitespace and cut to six fields, and the fixed six-column header
  is put in front.

All arithmetic is on nominal values in Dafny's exact `real`. Every Python
exception is an error value of a `Result` (module `Wrappers`):

- `ValueError` for a lookup that finds zero rows or several rows;
- `KeyError` for an unknown polarisation label;
- `ZeroDivisionError` for a zero denominator.

An exception aborts the whole script, so the driver returns the first error
in visit order.

Modules:
- `Wrappers`: Option and Result.
- `Uncertain`: a reading, a nominal value with its standard deviation.
- `Select`: order-preserving filtering, the exactly-one lookup and
  first-appearance de-duplication (pandas `unique()`), shared by the scripts.
- `PyStr`: the Python string operations the converter uses (`readlines`,
  `startswith`, `replace`, argument-less `split`).
- `Chsh`, `Hbt`, `LinearScan`: the three scripts.

The `g_calc` driver is imperative, as in the source. `Hbt.GCalc` runs the
outer loop over the distinct currents. `Hbt.MeasureCurrent` does one pass of
it: it computes the current's distinct durations and hands them to the inner
loop, `Hbt.MeasureDurations`. All three are proved against the reference
function `Hbt.RunAll`. `RunAll` measures the categories `Hbt.Categories` in
order and stops at the first failure. The lemmas about `Categories` and
`RunAll` state what the loops promise: coverage, no repetitions, visit order,
and one record per category.

## Model

| member | source | states |
|---|---|---|
| Chsh.AlphaPerp | src/photons_quantum_entanglement/chsh.py:5-16 | defined exactly on H, V, +, -, with a result among them; any other label fails with an unknown-polarisation error naming it |
| Chsh.AlphaPerpInvolution | src/photons_quantum_entanglement/chsh.py:5-10 | on a known label the map has no fixed point and applying it twice gives the label back |
| Chsh.BetaPerp | src/photons_quantum_entanglement/chsh.py:19-20 | the orthogonal angle exceeds β by exactly 90 degrees |
| Chsh.CValue | src/photons_quantum_entanglement/chsh.py:23-28 | succeeds iff exactly one row has both the label α and the angle β, and then returns that row's value and deviation; otherwise a lookup error naming (α, β) |
| Chsh.EValue | src/photons_quantum_entanglement/chsh.py:31-40 | succeeds iff the label is known, the four readings (α,β), (α⊥,β), (α,β+90), (α⊥,β+90) each exist exactly once and their sum is non-zero; the value is parallel minus crossed readings over their sum; a zero sum gives a division error; any other error is the first failure in the script's order: the lookup of (α,β), the label, then the lookups of (α⊥,β), (α,β+90), (α⊥,β+90) |
| Chsh.EValueReadsFourKeys | src/photons_quantum_entanglement/chsh.py:31-35 | two sheets that agree on the four looked-up readings give the same E, so no other row matters |
| Chsh.EValuePerpNegates | src/photons_quantum_entanglement/chsh.py:15-16 | replacing α by α⊥ keeps E's success and negates its value |
| Chsh.EValuePerfectCorrelation | src/photons_quantum_entanglement/chsh.py:36-40 | when both crossed readings are zero and the sum is non-zero, E is exactly 1 |
| Chsh.EValueBounded | src/photons_quantum_entanglement/chsh.py:36-40 | with non-negative readings a successful E lies in [−1, 1] |
| Chsh.BellParameter | src/photons_quantum_entanglement/chsh.py:53-57 | succeeds iff all four E values succeed; then S = E(H,22.5) + E(+,22.5) − E(H,67.5) + E(+,67.5); otherwise fails with the error of the first failing E, in the order the script evaluates them |
| Chsh.BellParameterBounded | src/photons_quantum_entanglement/chsh.py:53-57 | with non-negative readings a successful S lies in [−4, 4] |
| Hbt.Restrict | src/photons_quantum_entanglement/hbt.py:24 | every kept row has the queried current and duration, and every such row of the sheet is kept |
| Hbt.RestrictIgnoresOtherRow | src/photons_quantum_entanglement/hbt.py:24 | a row of another category, wherever it stands, does not change the restriction |
| Hbt.CValue | src/photons_quantum_entanglement/hbt.py:15-20 | succeeds iff exactly one row has the measurement name, and then returns that row's value and deviation; otherwise a lookup error naming it |
| Hbt.LookupInCategory | src/photons_quantum_entanglement/hbt.py:24-27 | a lookup in the restricted sheet succeeds iff exactly one row of the whole sheet has that current, duration and name, and then returns that row's reading |
| Hbt.Quotient | src/photons_quantum_entanglement/hbt.py:28 | division fails iff the divisor is zero; otherwise the quotient times the divisor is the dividend |
| Hbt.G2 | src/photons_quantum_entanglement/hbt.py:23-28 | `calc_g2` on the sheet: a failure is a lookup error for N1, N2 or N12, or a division error (value and error cases are fixed by the two lemmas below) |
| Hbt.G2FromRows | src/photons_quantum_entanglement/hbt.py:23-28 | when N1, N2 and N12 each occur exactly once in the category, g2 is the formula N12 / (N1·N2·duration) over their values |
| Hbt.G2MissingRow | src/photons_quantum_entanglement/hbt.py:25-27 | when N1, N2 or N12 is missing or repeated in the category, g2 fails naming the first such one, in the order the function looks them up |
| Hbt.GH2 | src/photons_quantum_entanglement/hbt.py:31-37 | `calc_gh2` on the sheet: a failure is a lookup error for N0, N01, N02 or N012, or a division error |
| Hbt.GH2FromRows | src/photons_quantum_entanglement/hbt.py:31-37 | when N0, N01, N02 and N012 each occur exactly once in the category, g2h is (N0·N012) / (N01·N02) over their values |
| Hbt.GH2MissingRow | src/photons_quantum_entanglement/hbt.py:33-36 | when N0, N01, N02 or N012 is missing or repeated, g2h fails naming the first such one in lookup order |
| Hbt.OtherCategoryIgnored | src/photons_quantum_entanglement/hbt.py:23-37 | inserting (hence adding, removing or editing) a row of another category changes neither g2 nor g2h |
| Hbt.Measure | src/photons_quantum_entanglement/hbt.py:57-71 | a category's record exists iff g2 and g2h both succeed with non-zero values (the percentage errors divide by them); the record carries the category's current and duration and those two values; a failure is g2's error, else g2h's, else a division error |
| Hbt.Currents | src/photons_quantum_entanglement/hbt.py:54 | the current column has one entry per row, the row's current |
| Hbt.DurationsOfMembers | src/photons_quantum_entanglement/hbt.py:55 | a duration is listed for a current iff some row has both |
| Hbt.CategoriesOf | src/photons_quantum_entanglement/hbt.py:55 | the pairs of one current: one per distinct duration of its rows, in the order `unique()` lists them |
| Hbt.Categories | src/photons_quantum_entanglement/hbt.py:54-55 | the pairs the nested loops visit, each of which occurs in some row of the sheet |
| Hbt.CategoriesCover | src/photons_quantum_entanglement/hbt.py:54-55 | a (current, duration) pair is visited iff some row of the sheet has it |
| Hbt.CategoriesNoDuplicates | src/photons_quantum_entanglement/hbt.py:54-55 | no pair is visited twice |
| Hbt.CategoriesOrder | src/photons_quantum_entanglement/hbt.py:54-55 | of two visited pairs, the earlier has the current that appears first in the sheet, or the same current and the duration that appears first among that current's rows |
| Hbt.VisitLayout | src/photons_quantum_entanglement/hbt.py:54-55 | the pairs of the i-th distinct current come right after those of the currents before it, one per distinct duration, in that order |
| Hbt.RunAllMeaning | src/photons_quantum_entanglement/hbt.py:53-71 | the reference run over the first n pairs succeeds iff each pair measures, and then holds their records in order; otherwise it fails with the first failing pair's error |
| Hbt.RunAllFailsEarly | src/photons_quantum_entanglement/hbt.py:57-58 | once a prefix of the visit fails, every longer run fails with the same error |
| Hbt.RecordsFollowVisit | src/photons_quantum_entanglement/hbt.py:60-71 | the full run succeeds iff every visited pair measures; then it holds one record per pair in visit order, with that pair's current, duration, g2 and g2h |
| Hbt.MeasureDurations | src/photons_quantum_entanglement/hbt.py:55-71 | the inner loop appends one record per duration and keeps the accumulated records equal to the reference run over the pairs visited so far; on a failure it returns the error of the whole run |
| Hbt.MeasureCurrent | src/photons_quantum_entanglement/hbt.py:54-71 | one outer pass extends the records from the pairs of the currents before the i-th to those up to and including it, or returns the whole run's error |
| Hbt.GCalc | src/photons_quantum_entanglement/hbt.py:53-71 | the driver returns exactly the reference run over all visited pairs: all records in visit order, or the first error |
| Select.Filter | src/photons_quantum_entanglement/hbt.py:24 | a boolean-mask selection keeps exactly the satisfying elements and is no longer than its input |
| Select.FilterConcat | src/photons_quantum_entanglement/linear_scan_to_csv.py:13-17 | a selection of a concatenation is the concatenation of the selections, so relative order is kept |
| Select.FilterSingleton | src/photons_quantum_entanglement/hbt.py:16-17 | a selection has exactly one element iff exactly one index satisfies the mask, and is then that element |
| Select.FilterOfFilter | src/photons_quantum_entanglement/hbt.py:24-25 | selecting by one mask and then another is selecting by their conjunction |
| Select.TheOnly | src/photons_quantum_entanglement/chsh.py:24-27 | the exactly-one lookup succeeds iff exactly one element satisfies the mask, and then returns that element |
| Select.Distinct | src/photons_quantum_entanglement/hbt.py:54 | `unique()` holds each element of the input exactly once and nothing else |
| Select.DistinctOrder | src/photons_quantum_entanglement/hbt.py:54-55 | `unique()` lists elements in strictly increasing order of their first appearance |
| PyStr.RemoveAll | src/photons_quantum_entanglement/linear_scan_to_csv.py:14 | `replace("\n", "")` leaves no newline, and changes nothing in a line without one; with `RemoveAllConcat` and `RemoveAllChar` it keeps every other character, in order |
| PyStr.RemoveAllConcat | src/photons_quantum_entanglement/linear_scan_to_csv.py:14 | removing a character from a concatenation gives the concatenation of the two results, so order is kept |
| PyStr.RemoveAllChar | src/photons_quantum_entanglement/linear_scan_to_csv.py:14 | a single character is dropped iff it is the one removed, and is kept otherwise |
| PyStr.Split | src/photons_quantum_entanglement/linear_scan_to_csv.py:19 | `split()` yields only non-empty tokens free of whitespace |
| PyStr.SplitSkipsSpace | src/photons_quantum_entanglement/linear_scan_to_csv.py:19 | leading whitespace does not change the tokens |
| PyStr.SplitConcat | src/photons_quantum_entanglement/linear_scan_to_csv.py:19 | a non-empty run of whitespace separates the tokens: both sides are split independently |
| PyStr.SplitIgnoresTrailingSpace | src/photons_quantum_entanglement/linear_scan_to_csv.py:19 | trailing whitespace does not change the tokens |
| PyStr.SplitEmptyIffAllSpace | src/photons_quantum_entanglement/linear_scan_to_csv.py:19 | a line yields no tokens iff it is all whitespace |
| PyStr.SplitJoin | src/photons_quantum_entanglement/linear_scan_to_csv.py:19 | splitting tokens joined by single spaces gives the tokens back |
| PyStr.ReadLines | src/photons_quantum_entanglement/linear_scan_to_csv.py:11-12 | the lines concatenate to the file's text, each is non-empty, only its last character can be a newline, and every line but the last ends with one |
| LinearScan.IsComment | src/photons_quantum_entanglement/linear_scan_to_csv.py:16 | a line is a comment iff its first character is `=` or `#` |
| LinearScan.CleanLines | src/photons_quantum_entanglement/linear_scan_to_csv.py:13-17 | one kept line per non-comment line, none holding a newline |
| LinearScan.CleanLinesConcat | src/photons_quantum_entanglement/linear_scan_to_csv.py:13-17 | the kept lines of a concatenated log are those of its parts, in order |
| LinearScan.CleanLinesOne | src/photons_quantum_entanglement/linear_scan_to_csv.py:13-17 | a single line is dropped iff it starts with `=` or `#`, and is otherwise kept without its newlines |
| LinearScan.CleanLinesIdempotent | src/photons_quantum_entanglement/linear_scan_to_csv.py:13-17 | cleaning lines as `readlines()` yields them a second time changes nothing |
| LinearScan.CleanFileIdempotent | src/photons_quantum_entanglement/linear_scan_to_csv.py:11-17 | the same holds for the lines of any file |
| LinearScan.StrippedReadLineIsData | src/photons_quantum_entanglement/linear_scan_to_csv.py:14-16 | removing newlines from a kept `readlines()` line never makes it start with `=` or `#` |
| LinearScan.RowOf | src/photons_quantum_entanglement/linear_scan_to_csv.py:19 | a row is the prefix of the line's tokens of length min(6, token count) |
| LinearScan.Convert | src/photons_quantum_entanglement/linear_scan_to_csv.py:13-27 | the output is the fixed header followed by one row per kept line, each of at most six non-empty whitespace-free fields |
| LinearScan.ConvertConcat | src/photons_quantum_entanglement/linear_scan_to_csv.py:18-27 | each part of a log contributes its own rows, in order, under a single header |
| LinearScan.ConvertOne | src/photons_quantum_entanglement/linear_scan_to_csv.py:13-21 | a single comment line adds no row; any other line adds the first six fields of its newline-free text |
| LinearScan.BlankLineGivesEmptyRow | src/photons_quantum_entanglement/linear_scan_to_csv.py:13-21 | a kept line of only whitespace gives an empty row |

## Left out

- Standard-deviation propagation by the `uncertainties` package is not modelled, because it tracks correlations between values and takes square roots. Readings carry their deviation as an opaque field. E, S, g2 and g2h are modelled on nominal values only.
- Hbt.Measure: the record holds no `g2_error`, `gh2_error` or percentage-error fields, because these are standard deviations. Only the failure of the percentage errors on a zero nominal value is modelled.
- Uncertain.Reading: a reading accepts any deviation; the check that `ufloat` makes on its standard deviation belongs to the `uncertainties` package, which is not part of this model.
- Floating point is not modelled: values are exact reals. Sheet keys such as `beta == 22.5` and `duration == d` are compared by exact equality. NaN, which pandas never matches and lists in `unique()`, is not modelled.
- Reading the Excel sheet and the text file, writing the JSON and CSV output and creating the output directory are input and output. The sheet and the file are parameters: a sequence of rows, or the file's text. The CSV writer's quoting is not modelled.
- The click command-line parsing and the `print` calls are not modelled (console output only).
- PyStr.ReadLines: the text is taken after Python's universal-newline translation, so `\r\n` and `\r` endings are not modelled.
- Hbt.MeasureDurations takes the per-category measurement as a function argument; `Hbt.MeasureCurrent` passes `Measure` on the sheet. Its records are the same as the source's, whose inner loop calls `calc_g2` and `calc_gh2` directly.
- alpha_beta_fitting.py, mi.py and hom.py are not part of this model. They are curve fitting, floating-point trimming and plotting with scipy and matplotlib.
