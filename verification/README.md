# UFC results cleaning, modelled in Dafny

This project models the cleaning script `clean_data.py` of a UFC results dashboard. The
script reads one row per contest and keeps a fixed list of attribute columns, skipping any
the input lacks. It keeps only contests won by the red or the blue corner. It then adds
winner-perspective columns: the winner's height, reach, significant-strike rate, takedown
rate and age, plus the winner-minus-loser age gap. It adds a betting label: `Favorite`,
`Underdog`, `PickEm` or `Unknown`. Finally it drops rows that lack the winner's height,
reach or age.

The model is functional:

- `Options` defines `Option` (a missing cell) and `Result` (a run that stops with an error).
- `Seqs` defines order-preserving `Filter` and `Map` over sequences. It also defines the
  subsequence relation and the lemmas the table-level steps rely on.
- `Columns` covers the wanted column list, the selection of the columns present, the
  columns later steps read by name, and the columns the script appends.
- `Contest` defines the raw row, the two corners, admission, winner-side selection
  (`WinnerStat`) and the age gap (`AgeDiff`).
- `Market` defines the betting classifier (`Classify`).
- `Pipeline` defines the derived row, the critical-value filter and the whole run
  (`CleanData`).

The five winner columns and the age gap are stated against an independent reference:
`Pick(c, red, blue)`, the value of corner `c`. The betting label is characterised by the
classifier's four if-and-only-if clauses. `Year` is the date's year. On a decisive row, all
of these derived values are proved unchanged when the contest is recorded with the corners
exchanged (`SwapCorners`).

Cells are `Option` values, where `None` stands for a pandas missing value. Heights, reaches,
ages, odds, finish round and fight time are `int`. The two career rates are `real`. Dates
arrive already parsed (`Date`), and `Year` is read from them.

## Model

| member | source | states |
|---|---|---|
| Columns.DesiredDistinct | clean_data.py:15-22 | the wanted column list names no column twice |
| Columns.KeepPresent | clean_data.py:24-26 | the kept columns are exactly the wanted columns present in the header, as an order-preserving subsequence of the wanted list; absence of a column is never an error |
| Columns.KeepPresentIsUnique | clean_data.py:24-26 | over a duplicate-free wanted list, any order-preserving choice of exactly the present wanted columns equals the kept columns, so the result is fully determined |
| Columns.KeepPresentIgnoresHeaderOrder | clean_data.py:24-26 | two headers with the same set of columns keep the same columns, whatever their order or repetitions |
| Columns.KeepPresentIdempotent | clean_data.py:24-26 | keeping again from the kept columns keeps the same columns |
| Columns.KeepPresentAll | clean_data.py:24-26 | a header that has every wanted column keeps all of them, in the wanted order |
| Columns.Select | clean_data.py:15-26 | the script keeps exactly the columns of its fixed list that are present, in the list's order, with no duplicates |
| Columns.MissingReferenced | clean_data.py:29-91 | lists exactly the columns that later steps read by name and the input lacks; the list is empty exactly when every such column is present |
| Columns.OutputColumns | clean_data.py:26-86 | the output header is the kept columns in order, followed by Year, the five winner columns, WinnerAgeDiff and BettingResult |
| Contest.CornerOf | clean_data.py:33 | an outcome cell names a corner exactly when it reads "Red" or "Blue", and then it reads that corner's label |
| Contest.Admitted | clean_data.py:33 | a row is admitted exactly when its outcome names a corner |
| Contest.Year | clean_data.py:29-30 | the year is present exactly when the date is, and it is the date's year |
| Contest.WinnerStat | clean_data.py:38-42 | on a decisive outcome, returns the winning corner's value; on any other outcome, returns the blue value |
| Contest.Minus | clean_data.py:53-55 | a difference of cells is present exactly when both operands are, and then it is their difference |
| Contest.AgeDiff | clean_data.py:51-55 | the gap is missing exactly when either age is missing; on a decisive row it is the winner's age minus the loser's age |
| Contest.AgeDiffIsWinnerMinusLoser | clean_data.py:38-57 | for every outcome value, the gap equals the winner-side age minus the loser-side age, as selected by the winner-side rule |
| Contest.AgeDiffAntisymmetric | clean_data.py:51-55 | with the same winner, exchanging the two ages negates the gap and keeps it present or missing |
| Contest.WinnerStatCornerSymmetric | clean_data.py:38-48 | on a decisive row, exchanging the corners' values and the winner leaves the winner's value unchanged |
| Contest.AgeDiffCornerSymmetric | clean_data.py:51-57 | on a decisive row, exchanging the corners' ages and the winner leaves the gap unchanged; nothing is negated |
| Market.Favored | clean_data.py:70-76 | the favourite is missing exactly when the odds are equal; otherwise it is the corner with strictly lower odds |
| Market.Classify | clean_data.py:63-84 | Unknown exactly when either odds cell is missing. PickEm exactly when both odds are present and equal. Favorite exactly when both are present and the outcome names the corner with strictly lower odds. Underdog exactly when both are present, unequal, and the outcome names no such corner. |
| Market.ClassifyCornerSymmetric | clean_data.py:63-84 | on a decisive row, exchanging the odds and the winner leaves the label unchanged |
| Market.FavoriteExactlyOneCorner | clean_data.py:70-84 | with both odds known and different, a win by either corner is labelled Favorite or Underdog, and exactly one of the two corners' wins is labelled Favorite |
| Pipeline.Derive | clean_data.py:30-86 | keeps the raw row; the year is the date's year, missing when the date is; the betting label is the classifier's label for the row's outcome and odds. On an admitted row the five winner columns are the winning corner's values, and the gap is the winner's age minus the loser's, missing exactly when an age is missing. |
| Pipeline.Critical | clean_data.py:94 | a derived decisive row passes the critical-value filter exactly when the winning corner's height, reach and age cells are present |
| Pipeline.Admit | clean_data.py:33 | the admitted rows are exactly the input rows with a decisive outcome, as an order-preserving subsequence of the input; every copy of a decisive row survives and no copy of another row does |
| Pipeline.CleanRows | clean_data.py:33-94 | each output row is the derivation of an admitted input row and has winner height, reach and age. Every admitted row whose derivation has them is in the output. The output is no longer than the admitted rows, which are no more than the input rows. |
| Pipeline.CleanRowsKeepInputOrder | clean_data.py:33-94 | the input rows behind the output rows form an order-preserving subsequence of the input |
| Pipeline.CleanRowsRowIndependent | clean_data.py:33-94 | cleaning a concatenation of tables is the concatenation of their cleanings, so each row's fate depends on that row alone |
| Pipeline.DeriveCornerSymmetric | clean_data.py:30-86 | on an admitted row, the year, every derived winner column, the gap, the betting label and the critical-value verdict are unchanged when the contest is recorded with the corners exchanged |
| Pipeline.CleanData | clean_data.py:4-100 | a failed load gives LoadFailed and nothing else does. A lookup failure occurs exactly when some column read by name is absent, and lists exactly those columns. Otherwise the output has the selected-plus-derived header and the cleaned rows. |

## Left out

- Reading the semicolon-separated input and writing the output file, and the progress
  messages, are input/output. A failed read is the input `None` of `CleanData`.
- Date parsing with coercion of bad dates and the numeric coercion of the winner, fight
  time and finish-round columns are library behaviour. Dates arrive parsed or missing.
  Numbers arrive as numbers or missing, so the coercion is the identity.
- Floating-point and NaN semantics are not modelled. Numbers are exact `int` or `real`, and a
  missing value is `None`.
- Pipeline.CleanData: fails whenever any column read by name is absent. The script raises
  its lookup error at the first read instead. For the columns read only inside the
  per-row functions, whether that read happens depends on the rows: a blue height is never
  read when every admitted row is a red win, and pandas' handling of an empty frame decides
  the case with no admitted row.
- Pipeline.Critical: the check for a missing betting label is not written out. The label is a
  total four-valued datatype, so that check can never drop a row.
- A row's cells are not tied to the input header: a row may hold a value for a label
  column (such as Gender) that the header lacks, and the cleaned row then still carries
  it although the output header does not list that column. The script's frame has no
  such cells; the model does not state this well-formedness condition.
- The dashboard script, with its layout, filters, charts and percentage KPIs, only consumes
  the cleaned file.
