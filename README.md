# Bill-rate update of the planned matrix, modelled in Dafny

The `update-bill-rate` request of the Unanet data-refresh functions reads two
tables: the planned matrix (one row per planned labor assignment) and the
labor-category table of negotiated bill rates. It writes the planned matrix back
with new bill rates. This project models that request from the moment both
tables have been read until the result would be written. The steps are:

- **Column names.** Whitespace is stripped from every column name. The
  labor-category table's source names ("Person Key", "Bill Rate", ...) are
  renamed onto the planned matrix's names. The `Text` and `Headers` modules
  model this.
- **Normalisation of the overrides.** A row with a missing cell in any of the
  five key columns, or a missing rate, is dropped. Every remaining rate is cleaned
  of `$` and `,` and read as a number by `float()`, which skips only ASCII
  whitespace and non-ASCII spaces around it (not the separators U+001C to
  U+001F that `str.strip()` also removes). One rate that cannot be read fails the
  whole request. The `Rates` and `Normalizer` modules model this.
- **Reconciliation.** Overrides that share the composite key (person.key,
  project.key, laborCategory.name, beginDate, endDate) collapse to one carrying
  their maximum rate. The planned matrix is left-joined onto them. The attached
  rate replaces `billRate` wherever one is attached (`combine_first`), and the
  attached column is dropped. The `Reconciler` module models this.
- **The request.** Missing columns are reported in the order the steps read
  them. The row-count check guards the write. The `BillRateUpdate` module
  models this; its method `UpdateBillRate` is the request itself.

Tables are sequences of records (`Rows`). A null cell is `None`. Rates are
exact `real` numbers. Dates are opaque `(year, month, day)` values compared only
for equality.

Where the code and its comments disagree, the model follows the code:

- The comment at `unanet_data_refresh1/planMatrix-billRate-Update/function_app.py:121` says the rate is updated only when the new rate is not
  zero. `combine_first` at `:122` tests only for null, so a zero override
  replaces the planned rate (`ZeroOverrideApplied`).

Two further points about the code as modelled:

- `astype("Int64")` at `:88-91` and `pd.to_datetime` at `:103-106` raise
  on cells they cannot convert. The model takes these cells as already
  converted (see Left out).
- The renaming of the labor-category columns happens inside the request
  (`:73-82`), and the model includes it.

The row-count check (`:127-133`) cannot fail after the collapse
(`RowCountCheckPasses`). Joining onto overrides that were NOT collapsed shows
what the check would catch (`UncollapsedJoinRejected`).

## Model

| member | source | states |
|---|---|---|
| Text.Strip | unanet_data_refresh1/planMatrix-billRate-Update/function_app.py:34 | the stripped name is the slice of the name between its leading and trailing whitespace: every character outside it is whitespace, and it neither starts nor ends with whitespace; headers use the `str.strip()` set (`Text.IsSpace`) |
| Text.StripPadded | unanet_data_refresh1/planMatrix-billRate-Update/function_app.py:34 | whitespace added around text that neither starts nor ends with whitespace is exactly what stripping removes |
| Rows.PlannedKey | unanet_data_refresh1/planMatrix-billRate-Update/function_app.py:115-119 | a planned row has a join key exactly when its five key cells are all present, and the key is made of those cells |
| Text.StripIdempotent | unanet_data_refresh1/planMatrix-billRate-Update/function_app.py:70 | stripping an already stripped name changes nothing |
| Headers.StripColumns | unanet_data_refresh1/planMatrix-billRate-Update/function_app.py:34 | the header keeps one name per column, each with its surrounding whitespace stripped |
| Headers.StripColumnsIdempotent | unanet_data_refresh1/planMatrix-billRate-Update/function_app.py:70 | the second strip of the labor-category header at line 70 leaves the header read at line 34 unchanged |
| Headers.CanonicalName | unanet_data_refresh1/planMatrix-billRate-Update/function_app.py:73-82 | a name in the rename dictionary becomes its planned-matrix name; any other name is kept |
| Headers.RenameColumns | unanet_data_refresh1/planMatrix-billRate-Update/function_app.py:73-82 | the header keeps one name per column, each renamed to its canonical name |
| Headers.OverrideColumns | unanet_data_refresh1/planMatrix-billRate-Update/function_app.py:70-82 | every labor-category column ends up named by the canonical name of its stripped source name, with no column added or lost |
| Headers.FirstMissing | unanet_data_refresh1/planMatrix-billRate-Update/function_app.py:85 | none is reported exactly when every required column is present; a reported name is required and absent |
| Rates.CleanRate | unanet_data_refresh1/planMatrix-billRate-Update/function_app.py:96-98 | cleaning never lengthens the text; CleanRateRemoves, CleanRateKeeps and CleanRateConcat pin it to deleting every `$` and `,` and keeping the other characters in order |
| Rates.CleanRateConcat | unanet_data_refresh1/planMatrix-billRate-Update/function_app.py:96-98 | cleaning works character by character: the cleaning of two texts joined is the two cleanings joined, so the kept characters stay in order |
| Rates.CleanRateRemoves | unanet_data_refresh1/planMatrix-billRate-Update/function_app.py:94-98 | the cleaned rate text contains no `$` and no `,` |
| Rates.CleanRateKeeps | unanet_data_refresh1/planMatrix-billRate-Update/function_app.py:96-98 | cleaning keeps every other character as often as it occurs |
| Rates.CleanRateIdempotent | unanet_data_refresh1/planMatrix-billRate-Update/function_app.py:96-98 | cleaning cleaned text changes nothing |
| Rates.Trim | unanet_data_refresh1/planMatrix-billRate-Update/function_app.py:99 | the text without the whitespace `float()` skips, which excludes U+001C to U+001F |
| Rates.ParseDecimal | unanet_data_refresh1/planMatrix-billRate-Update/function_app.py:99 | text that is empty or blank once trimmed does not parse; without a leading minus sign a parsed value is never negative; ParseDecimalIff states which number is read |
| Rates.ParseSignedText | unanet_data_refresh1/planMatrix-billRate-Update/function_app.py:99 | an optional sign, digits and an optional point with more digits read as the signed number they denote |
| Rates.ParseDecimalText | unanet_data_refresh1/planMatrix-billRate-Update/function_app.py:99 | such a decimal text with any `float()` whitespace around it reads as the number it denotes, with or without a point, sign or padding |
| Rates.ParseDecimalIff | unanet_data_refresh1/planMatrix-billRate-Update/function_app.py:99 | text reads as v exactly when, once trimmed, it is a decimal text (sign, digits, optional point and digits, at least one digit) denoting v |
| Rates.ParseRateText | unanet_data_refresh1/planMatrix-billRate-Update/function_app.py:94-99 | a cell that cleans to a padded decimal text holds the number that text denotes |
| Rates.ParseRateIff | unanet_data_refresh1/planMatrix-billRate-Update/function_app.py:94-99 | a cell holds v exactly when its cleaned, trimmed text is a decimal text denoting v |
| Rates.ParseRate | unanet_data_refresh1/planMatrix-billRate-Update/function_app.py:94-99 | a cell holding nothing but `$`, `,` and whitespace does not parse; ParseRateIff states the number any cell holds, and currency text parses back to its amount (ParseFormatCurrency) |
| Rates.ParseDecimalChars | unanet_data_refresh1/planMatrix-billRate-Update/function_app.py:99 | text that parses holds only whitespace, digits, a point and signs |
| Rates.MalformedResidueFails | unanet_data_refresh1/planMatrix-billRate-Update/function_app.py:94-100 | a cleaned rate that keeps any other character fails to parse |
| Rates.ParseFormatCurrency | unanet_data_refresh1/planMatrix-billRate-Update/function_app.py:94-100 | currency text with `$` and thousands separators, written from an amount in cents, parses back to exactly that amount |
| RateExamples.WholeDollars | unanet_data_refresh1/planMatrix-billRate-Update/function_app.py:94-99 | "$125", without a point, reads as 125 |
| RateExamples.PaddedCell | unanet_data_refresh1/planMatrix-billRate-Update/function_app.py:94-99 | " $12.5", led by a space and with one decimal digit, reads as 12.5 |
| RateExamples.NegativeAmount | unanet_data_refresh1/planMatrix-billRate-Update/function_app.py:94-99 | "-$5.00" reads as -5 |
| RateExamples.SeparatorNotPadding | unanet_data_refresh1/planMatrix-billRate-Update/function_app.py:94-100 | a cell led by U+001C is malformed, as `float()` does not skip that character |
| Normalizer.DropIncomplete | unanet_data_refresh1/planMatrix-billRate-Update/function_app.py:85 | the kept rows are complete and no more than the input rows |
| Normalizer.DropIncompleteMembers | unanet_data_refresh1/planMatrix-billRate-Update/function_app.py:85 | a row is kept exactly when it is in the table and none of its key cells and not its rate is missing |
| Normalizer.IncompleteRowDropped | unanet_data_refresh1/planMatrix-billRate-Update/function_app.py:85 | removing an incomplete row from the table leaves the kept rows unchanged |
| Normalizer.ParseAll | unanet_data_refresh1/planMatrix-billRate-Update/function_app.py:94-100 | reading every rate with a given reader succeeds exactly when every rate reads, and then yields one override per row with its key and read rate, in order; a failure is a malformed-rate error |
| Normalizer.ParseAllError | unanet_data_refresh1/planMatrix-billRate-Update/function_app.py:94-100 | a failure carries the cleaned text of a rate that does not read |
| Normalizer.NormalizeOverrides | unanet_data_refresh1/planMatrix-billRate-Update/function_app.py:85-100 | the normalisation fails only with a malformed-rate error and yields no more overrides than there are rows |
| Normalizer.NormalizeFailsIff | unanet_data_refresh1/planMatrix-billRate-Update/function_app.py:85-100 | normalisation fails exactly when a complete row's rate does not parse, and then with a malformed-rate error |
| Normalizer.NormalizeSingle | unanet_data_refresh1/planMatrix-billRate-Update/function_app.py:85-100 | a single complete row whose rate reads as a number normalises to one override at its key with that number |
| Normalizer.NormalizedFromComplete | unanet_data_refresh1/planMatrix-billRate-Update/function_app.py:85-100 | every normalised override is the key and parsed rate of some complete row |
| Reconciler.MaxRate | unanet_data_refresh1/planMatrix-billRate-Update/function_app.py:111 | the maximum rate for a key is the rate of some override with that key and no smaller than any of them |
| Reconciler.Insert | unanet_data_refresh1/planMatrix-billRate-Update/function_app.py:109-112 | folding one override in changes only its key's entry, to the maximum of the old entry and the new rate, and keeps keys unique |
| Reconciler.Collapse | unanet_data_refresh1/planMatrix-billRate-Update/function_app.py:109-112 | the collapsed table has unique keys and finds, for each key, the maximum rate among the overrides with that key, and nothing for other keys |
| Reconciler.CollapseEntries | unanet_data_refresh1/planMatrix-billRate-Update/function_app.py:109-112 | each key occurs at most once after collapsing; the collapsed keys are exactly the override keys; each entry carries its key's maximum rate |
| Reconciler.CollapseKeepsMaximum | unanet_data_refresh1/planMatrix-billRate-Update/function_app.py:109-112 | rates 100 and 150 for one key collapse to a single entry at 150 |
| Reconciler.LeftJoin | unanet_data_refresh1/planMatrix-billRate-Update/function_app.py:115-119 | the left join never has fewer rows than the planned matrix |
| Reconciler.JoinRowUnique | unanet_data_refresh1/planMatrix-billRate-Update/function_app.py:115-119 | against overrides with unique keys, a planned row joins to exactly one row, carrying its match's rate or nothing |
| Reconciler.LeftJoinUnique | unanet_data_refresh1/planMatrix-billRate-Update/function_app.py:115-119 | against overrides with unique keys, every planned row appears exactly once, in its order, with its unique match's rate attached or nothing |
| Reconciler.CombineFirst | unanet_data_refresh1/planMatrix-billRate-Update/function_app.py:122 | the result is the override value unless it is null, else the planned value |
| Reconciler.Coalesce | unanet_data_refresh1/planMatrix-billRate-Update/function_app.py:122 | each row keeps its attached rate and every cell but billRate; an attached rate replaces billRate, and a row with none attached is unchanged |
| Reconciler.DropHelper | unanet_data_refresh1/planMatrix-billRate-Update/function_app.py:125 | one planned row per joined row, the joined row's planned cells without the attached-rate column |
| Reconciler.Reconcile | unanet_data_refresh1/planMatrix-billRate-Update/function_app.py:109-125 | the reconciled matrix has as many rows as the planned one; ReconcileRows states each row |
| Reconciler.ReconcileRows | unanet_data_refresh1/planMatrix-billRate-Update/function_app.py:109-125 | reconciliation keeps the row count and order and changes each row only in billRate. billRate becomes the largest override rate for the row's key, or stays as it was |
| Reconciler.ReconcileNoOverrides | unanet_data_refresh1/planMatrix-billRate-Update/function_app.py:115-125 | with no overrides the planned matrix comes back row for row |
| Reconciler.ReconcileOnlyBillRate | unanet_data_refresh1/planMatrix-billRate-Update/function_app.py:122-125 | every column other than billRate keeps its planned value and no attached column remains |
| Reconciler.ReconcileOverrideWins | unanet_data_refresh1/planMatrix-billRate-Update/function_app.py:121-122 | a row whose key has overrides ends with their maximum, zero included; any other row is unchanged |
| Reconciler.ReconcileIdempotent | unanet_data_refresh1/planMatrix-billRate-Update/function_app.py:109-122 | reconciling the reconciled matrix against the same overrides changes nothing |
| BillRateUpdate.ColumnsPresent | unanet_data_refresh1/planMatrix-billRate-Update/function_app.py:85-125 | every column is present exactly when none of the look-ups the request makes reports a missing column |
| BillRateUpdate.Prepare | unanet_data_refresh1/planMatrix-billRate-Update/function_app.py:84-125 | preparation fails only with a missing column or a malformed rate |
| BillRateUpdate.CheckColumns | unanet_data_refresh1/planMatrix-billRate-Update/function_app.py:85-125 | the column checks either report a missing column or pass the outcome of the normalisation on unchanged |
| BillRateUpdate.CheckColumnsOkIff | unanet_data_refresh1/planMatrix-billRate-Update/function_app.py:85-125 | the column checks pass exactly when every column the request reads is present and the normalisation of the overrides succeeded |
| BillRateUpdate.PrepareOkIff | unanet_data_refresh1/planMatrix-billRate-Update/function_app.py:85-125 | the request gets past its column and rate steps exactly when every column it reads is present and every complete override row's rate parses |
| BillRateUpdate.MalformedRateAborts | unanet_data_refresh1/planMatrix-billRate-Update/function_app.py:94-100 | once the override columns and planned person and project columns are present, one malformed rate aborts the request with a malformed-rate error |
| BillRateUpdate.IncompleteOverrideIgnored | unanet_data_refresh1/planMatrix-billRate-Update/function_app.py:85 | an override row with a missing key cell or rate has no effect on the outcome |
| BillRateUpdate.CheckRowCount | unanet_data_refresh1/planMatrix-billRate-Update/function_app.py:127-133 | the guard passes the table exactly when its row count equals the planned count, else reports both counts |
| BillRateUpdate.RowCountCheckPasses | unanet_data_refresh1/planMatrix-billRate-Update/function_app.py:127-131 | after collapsing, the guard always passes the reconciled table |
| BillRateUpdate.UpdateBillRate | unanet_data_refresh1/planMatrix-billRate-Update/function_app.py:84-133 | the request fails with the first column or rate error, else returns every planned row once, in order, with only billRate replaced by its expected rate; it never reports a row-count mismatch |
| BillRateUpdate.CurrencyTextParses | unanet_data_refresh1/planMatrix-billRate-Update/function_app.py:94-100 | "$125.00" reads as 125.0 |
| BillRateUpdate.OverrideRowNormalised | unanet_data_refresh1/planMatrix-billRate-Update/function_app.py:85-106 | a complete override row at "$125.00" normalises to one override at 125.0 |
| BillRateUpdate.MatchingOverrideApplied | unanet_data_refresh1/planMatrix-billRate-Update/function_app.py:115-125 | an override at 125.0 for the row's key turns its rate of 100.0 into 125.0 and keeps one row |
| BillRateUpdate.DateMismatchKeepsRate | unanet_data_refresh1/planMatrix-billRate-Update/function_app.py:115-122 | an override whose end date differs leaves the row unchanged |
| BillRateUpdate.ZeroOverrideApplied | unanet_data_refresh1/planMatrix-billRate-Update/function_app.py:121-122 | an override rate of 0 replaces the planned rate |
| BillRateUpdate.UncollapsedJoinRejected | unanet_data_refresh1/planMatrix-billRate-Update/function_app.py:115-133 | joining onto two uncollapsed overrides for one key yields two rows, and the guard reports the counts 1 and 2 |

## Left out

- Reading and writing blobs, SAS tokens, UTF-8 decoding, CSV parsing with `skiprows`, and `to_csv` (`unanet_data_refresh1/planMatrix-billRate-Update/function_app.py:21-53`, `:136`) are I/O. The model starts from the two tables as read and ends with the table to be written.
- HTTP responses and logging are left out. The exception handler at `:141-143` and the 500 response at `:133` become an `Err` result.
- The other functions of the repository are not part of this model. They fetch projects, fixed schedules, invoices, leave and plans over HTTP.
- Rates.ParseDecimal, Rates.ParseRate, Rates.ParseDecimalIff, Rates.ParseRateIff, Rates.ParseDecimalChars, Rates.MalformedResidueFails: accept only a sign, digits and one decimal point, with the whitespace `float()` skips around them. Python's `float()` also accepts exponents, `inf`/`nan`, underscores between digits and non-ASCII digits. The model reports those as malformed.
- All arithmetic is exact on `real`. Floating-point rounding of rates is not modelled; the update only takes maxima and compares for equality.
- The conversion of key cells with `astype("Int64")` (`:88-91`) is taken as already done. Its failure on non-integral numbers is not modelled.
- The date parsing with `pd.to_datetime` (`:103-106`) is taken as already done. Its failure on unparseable text is not modelled.
- Headers.FirstMissing: names only the first missing required column. pandas' `KeyError` from `dropna` lists every missing one.
- Collapse: keeps overrides in order of first appearance. `groupby` sorts them by key. The join result does not depend on this order, because it only looks entries up by key.
- Columns other than the key and rate columns are an opaque sequence of cells. The model covers neither column order nor dtype changes in the output, nor duplicate column names.
- The `astype(str)` at `:96` is the identity in the model: rate cells are taken as their text.
