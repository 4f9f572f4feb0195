# agrishield in Dafny

agrishield looks for finance indicators that move with, or ahead of, Taiwanese
wholesale crop prices. This project models and proves three parts of it.

- **The per-crop scanner** (`run_scanner`, `scanner.dfy` and `align.dfy`). The crop
  price series is left-joined with a finance table on the date index. Every
  column is forward-filled down the crop's rows, and every row that still has a
  gap is dropped. A crop with fewer than 30 aligned rows is skipped. Otherwise
  every finance column is correlated with the price at lags of 0, 5 and 20 rows.
  The defined correlations compete on absolute value. The first maximal one is
  labelled "Synchronized", "Leading (1 Week)" or "Leading (1 Month)". The report
  is sorted by decreasing absolute best correlation.
- **The crop-price fetcher's cleaning** (`agridata.dfy`, with `pytext.dfy` for
  Python's `str.split`, `int()` and integer formatting):
  - `to_roc_date` and `roc_to_ad` convert between Gregorian dates and
    Republic-of-China (Minguo) calendar strings such as `113.05.07`;
  - `process_agri_json` turns the API's record list into a price series ordered
    by date.
- **The crop-list extraction** (`all_crops.dfy`, with `json.dfy` for decoded JSON
  scalars). Records with a truthy code and name are written into a dict keyed by
  the code, and the dict's items become the result list. Python dict semantics
  are modelled exactly:
  - `True == 1` and `False == 0` as keys;
  - the first key object is kept;
  - insertion order;
  - the last write wins.

Pearson's coefficient, `round(x, 4)`, `pd.to_datetime` and `pd.to_numeric` are
parameters (function values), never axioms. A lemma that needs an assumption
about degenerate input says so in its `requires`, through
`Scanner.UndefinedWhenDegenerate`. It assumes NaN for fewer than two pairs,
which pandas guarantees. It also assumes NaN for a side that never moves. That
half is an assumption: it holds when the constant's mean is computed exactly
(integers, or values with short binary fractions), but numpy's floating-point
mean can leave a tiny residue and give 0.0 instead. NaN is `None` throughout.
Pandas timestamps are integers (nanoseconds since the epoch).

The loops of the source are methods. These are proved against recursive
specification functions:
- `dropna`, in both files;
- the loop over the finance columns;
- the dict-filling loop.

The check in `process_agri_json` for a date string that `to_datetime` rejects is
a method too. It is proved against a plain statement: some date cell is
unparseable.

## Model

| member | source | states |
|---|---|---|
| Align.LeftJoin | agrishield.py:53-56 | the joined table has exactly one row per crop row, in crop order, with the crop's date and price; a finance cell is the table's value on that date, or absent when the table has no such date |
| Align.OffIndexDatesIgnored | agrishield.py:56 | finance rows on dates outside the crop index never contribute: two finance tables that agree on the crop's dates give the same join and the same `merged` |
| Align.FfillCell | agrishield.py:56 | after forward fill, a cell holds the value of the latest row at or before it where the column had one, and is absent when there is none |
| Align.FfillFromCell | agrishield.py:56 | the same for the fill carried from an initial value, which it keeps until the first present cell |
| Align.FfillPresence | agrishield.py:56 | a forward-filled cell has a value if and only if some row at or before it had one |
| Align.FfillFromPresence | agrishield.py:56 | the same for the fill carried from an initial value |
| Align.FfillStaysPresent | agrishield.py:56 | once a column has a value after forward fill, every later row has one |
| Align.FilledJoin | agrishield.py:56 | forward fill applies to the price and to every asset column, and keeps the dates and the shape |
| Align.RowAt | agrishield.py:57 | a complete row becomes a gap-free merged row holding the same date, price and asset values |
| Align.DropNa | agrishield.py:57 | the in-place `dropna` keeps exactly the complete rows, in order |
| Align.CompleteRows | agrishield.py:57 | `dropna` keeps at most as many rows as it is given, each with one value per finance column |
| Align.CompleteRowsProvenance | agrishield.py:57 | every complete row is kept, and every kept row is some complete row |
| Align.FirstComplete | agrishield.py:57 | the first complete row: no row before it is complete |
| Align.CompleteRowsOfMonotone | agrishield.py:57 | when completeness, once reached, persists, `dropna` removes exactly a prefix |
| Align.Merged | agrishield.py:56-57 | `merged` has at most one row per crop row, each with one value per finance column |
| Align.MergedIsSuffix | agrishield.py:56-57 | `merged` is the forward-filled join minus a prefix of rows that have a gap; from the first complete row on, every crop row is kept, in order |
| Scanner.LagCorrelationPairs | agrishield.py:71-75 | the lag-L correlation is Pearson over exactly the pairs (Price[i], asset[i-L]) for L <= i < len(merged); with 30 rows even lag 20 gets at least 10 pairs |
| Scanner.LagCorrelation | agrishield.py:71-75 | the lag-L correlation is `corr` applied to exactly the lag pairs; what those pairs are is stated by `Scanner.LagCorrelationPairs` |
| Scanner.ShiftedPairs | agrishield.py:71-75 | the NaN-filtered pairs of Price against the shifted asset column are exactly the lag pairs |
| Scanner.Shift | agrishield.py:74-75 | `shift(lag)` keeps the length; the first `lag` rows become NaN and row i holds row i-lag of the input |
| Scanner.ValidPairs | agrishield.py:71-75 | the pairs `corr` uses are at most as many as the rows |
| Scanner.Correlations | agrishield.py:74-78 | three candidates in the order `[corr_0, lag_1w, lag_1m]`: candidate k is the correlation at lag `Lags[k]` (0, 5, then 20 rows) |
| Scanner.MaxByAbs | agrishield.py:84 | `max(..., key=abs)` returns one of the candidates, and no candidate has a larger absolute value |
| Scanner.MaxByAbsIsFirstMaximal | agrishield.py:80-84 | among the defined candidates, `max` picks the first of maximal absolute value |
| Scanner.Timing | agrishield.py:86-88 | the timing label is always one of the three labels; which one is stated by `Scanner.TimingNamesFirstMaximal` |
| Scanner.TimingNamesFirstMaximal | agrishield.py:86-88 | the equality tests label the first maximal candidate with its own lag |
| Scanner.RoundOpt | agrishield.py:95-97 | rounding keeps NaN as NaN and a number as a number |
| Scanner.ScanAsset | agrishield.py:90-94 | a report row carries the crop, the asset name and one of the three labels |
| Scanner.ScanAssetDefined | agrishield.py:78-82 | an asset gets a report row if and only if at least one of its three correlations is defined |
| Scanner.ScanAssetBest | agrishield.py:84-97 | `Best_Correlation` is the rounded first maximal candidate, `Timing` names its lag, and the three lag columns are the rounded correlations |
| Scanner.ScanColumn | agrishield.py:69-98 | the scan of a finance column reports under that column's name |
| Scanner.Scans | agrishield.py:69 | one scan per finance column, in column order |
| Scanner.CollectRowsProvenance | agrishield.py:65-98 | `results` holds exactly the rows of the assets that were not skipped, and holds each asset at most once |
| Scanner.ScanColumns | agrishield.py:65-98 | the loop that appends to `results` builds exactly the collected rows, in column order |
| Scanner.RunScanner | agrishield.py:48-106 | fewer than 30 merged rows give the empty report; otherwise the report is a permutation of the collected rows, with the absolute best correlation non-increasing |
| Scanner.ConstantSideUndefined | agrishield.py:71-75 | given pandas' NaN on degenerate input, a series that never moves has no defined correlation at any lag |
| Scanner.ConstantAssetSkipped | agrishield.py:78-82 | given the same, an asset that never moves over `merged` gets no report row |
| Scanner.FlatPriceEmptyReport | agrishield.py:78-100 | given the same, a crop whose aligned price never moves gets an empty report |
| Sorting.SortBy | agrishield.py:103-104 | the sort returns a permutation of its input ordered by the key (no stability promise) |
| Sorting.Insert | agrishield.py:104 | inserting adds exactly one element |
| Sorting.InsertSorted | agrishield.py:104 | inserting into a sorted sequence keeps it sorted |
| AgriData.ToRocDateFields | agridata.py:40-41 | `to_roc_date` writes three dot-separated fields: the year minus 1911, as `int()` reads it, then the month and the day as exactly two digits each |
| AgriData.ToRocDate | agridata.py:40-41 | the string ends in two dot-separated two-character fields; the exact characters of each field (`f"{year - 1911}"`, then the two-digit month and day) are stated by `AgriData.SplitRocDate` |
| AgriData.RocToAd | agridata.py:80-84 | a result only for a string that splits on `.` into exactly three fields; the result itself is stated by `AgriData.RocToAdOfFields` and `AgriData.RocToAdNeedsTwoDots` |
| AgriData.SplitRocDate | agridata.py:40-41 | splitting a `to_roc_date` string on `.` gives its year, month and day fields |
| AgriData.RocToAdOfFields | agridata.py:80-84 | on text of three dot-free fields `a.b.c`, `roc_to_ad` returns `"{int(a)+1911}-{b}-{c}"` with `b` and `c` copied verbatim when `int(a)` succeeds, and None when it raises |
| AgriData.RocToAdNeedsTwoDots | agridata.py:80-84 | `roc_to_ad` returns None for a value that is not a string and for text whose number of dots is not two |
| PyText.SplitCount | agridata.py:82 | `str.split` on one character gives one field more than there are separators |
| AgriData.RocRoundTrip | agridata.py:40-41 | `roc_to_ad(to_roc_date(dt))` is the string `f"{year}-{MM}-{DD}"` of the same date, with the year unpadded |
| AgriData.DateCellOf | agridata.py:86 | a record's `Date` cell is a date, or a string `to_datetime` rejects, only when `TransDate` is present and `roc_to_ad` succeeds on it; otherwise NaT |
| AgriData.PriceOf | agridata.py:87 | a record's `Price` is a number only when `Avg_Price` is present and not null |
| AgriData.DateColumn | agridata.py:86 | one `Date` cell per record |
| AgriData.PriceColumn | agridata.py:87 | one `Price` cell per record |
| AgriData.SurvivingProvenance | agridata.py:89 | every row `dropna` keeps comes from a position with both a date and a price, and every such position gives a row |
| AgriData.SurvivingNothingKept | agridata.py:89 | with no position holding both a date and a price, `dropna` keeps nothing |
| AgriData.CleanedProvenance | agridata.py:86-89 | every cleaned row comes from one record whose date converted and whose price is numeric; every such record gives a row; there are at most as many rows as records |
| AgriData.MissingColumnCleansToEmpty | agridata.py:75-76 | a missing `TransDate` or `Avg_Price` column hides no row: no record could have survived anyway |
| AgriData.DropNa | agridata.py:89 | the in-place `dropna` keeps, in order, the rows with both a date and a price |
| AgriData.CleanColumns | agridata.py:86-93 | an error if and only if some rebuilt date string is one `to_datetime` rejects; otherwise a permutation of the surviving rows, sorted by date |
| AgriData.ProcessAgriJson | agridata.py:71-95 | the empty series when `Data` is absent or empty or a column is missing; otherwise the error case above, or the cleaned records in date order |
| PyText.Split | agridata.py:82 | `str.split` on one character never returns an empty list |
| PyText.SplitJoin | agridata.py:82 | splitting loses nothing: joining the fields with the separator gives the string back |
| PyText.JoinSplit | agridata.py:82 | joining fields that contain no separator, then splitting, gives the fields back |
| PyText.SplitFieldsLackSeparator | agridata.py:82 | no field of a split contains the separator |
| PyText.SplitNoSeparator | agridata.py:82 | a string without the separator splits into itself alone |
| PyText.SplitAtSeparator | agridata.py:82 | the first field of a split ends at the first separator |
| PyText.NatToStringRoundTrip | agridata.py:41 | the decimal form of a natural number is non-empty digits that denote it |
| PyText.Pad2TwoDigits | agridata.py:41 | `{n:02d}` for n below 100 is exactly two digits that denote n |
| PyText.NoSeparatorInIntToString | agridata.py:41 | the decimal form of an integer contains no `.` |
| PyText.ParseNumeralOfNatToString | agridata.py:83 | `int()` reads back the digits written for a natural number |
| PyText.ParseIntOfIntToString | agridata.py:41-83 | `int(f"{n}") == n` for every integer |
| PyText.ParseInt | agridata.py:83 | `int()` succeeds only on text that is not blank once stripped; which text it accepts and what it reads is stated by `PyText.ParseIntLiteral` |
| PyText.ParseIntOfLiteral | agridata.py:83 | `int()` reads whitespace, an optional `+` or `-`, a numeral (leading zeros and single `_` between digits allowed) and whitespace as the signed value of the numeral's digits, so `int("+113") == int("0113") == 113` |
| PyText.ParseIntLiteral | agridata.py:83 | `int()` succeeds if and only if the text has that form, and then returns the signed value of its digits |
| PyText.StripPadding | agridata.py:83 | any text is its `strip()`ped form with whitespace on both sides |
| PyText.StripNoSpace | agridata.py:83 | `strip` leaves a string without whitespace alone |
| PyText.DropUnderscoresOfDigits | agridata.py:83 | a run of digits has no underscores to drop |
| AllCrops.Key | all_crops.py:28 | `True` is keyed as 1 and `False` as 0, the numbers they equal; every other value is its own key |
| AllCrops.FillDict | all_crops.py:19-28 | the loop leaves `crop_dict` exactly as the item-by-item fill describes it |
| AllCrops.Assign | all_crops.py:28 | `crop_dict[code] = name` stores the new name under the code's key and leaves every other key's name alone; it appends at most one key and keeps the existing keys in place |
| AllCrops.AssignWellFormed | all_crops.py:28 | a dict assignment keeps every key once, each with a name, and names nothing else |
| AllCrops.Fill | all_crops.py:22-28 | every key in `crop_dict` has a name |
| AllCrops.FillWellFormed | all_crops.py:22-28 | after the loop every key is stored once and has a name, and nothing else has one |
| AllCrops.NonQualifyingIgnored | all_crops.py:23-27 | an item with a missing or falsy code or name changes nothing, wherever it stands |
| AllCrops.FillKeySet | all_crops.py:22-28 | the keys of `crop_dict` are exactly the codes of the qualifying items |
| AllCrops.FillKeyOrder | all_crops.py:28 | the keys are in the order each code first appeared among the qualifying items, each the code object of that first item |
| AllCrops.FillNames | all_crops.py:28 | the name under a code is the name of the last qualifying item with that code |
| AllCrops.FirstOfKeyIsNew | all_crops.py:28 | a qualifying item is the first of its key exactly when its code is not yet in the dict |
| AllCrops.CropList | all_crops.py:31-34 | one `{code, name}` entry per dict item, in dict order |
| AllCrops.ExtractCrops | all_crops.py:18-34 | no result unless `RS` is `"OK"`; otherwise the result list of the filled dict; a missing `Data` key gives the empty list |
| AllCrops.CropListOrder | all_crops.py:28-34 | the result holds one entry per first-of-its-key item, in first-appearance order |
| AllCrops.CropListProvenance | all_crops.py:22-34 | every result code is the code of a qualifying item that is the first of its key |
| AllCrops.CropListDistinct | all_crops.py:28-34 | no two result entries have equal codes |
| AllCrops.CropListCovers | all_crops.py:22-34 | every qualifying item's code has a result entry |
| AllCrops.CropListNames | all_crops.py:28-34 | a code's entry carries the name of the last qualifying item with that code |
| Wrappers.PresentProvenance | agrishield.py:80 | the NaN-filtering comprehension keeps exactly the defined values |
| Wrappers.PresentDistinct | agrishield.py:69-98 | values kept from distinct positions with distinct keys keep distinct keys |

## Left out

- `get_financial_universe` (agrishield.py:10-43) is a Yahoo Finance download. The finance table is an input: a list of column names and a map from date to one optional value per column.
- Scanner.RunScanner: assumes the debug CSV write at agrishield.py:58 succeeds. That write raises OSError when the `merged/` directory is missing or the crop name contains a path separator, and the model does not represent that failure. The message printed at agrishield.py:62 is I/O.
- Scanner.UndefinedWhenDegenerate: the constant-side half is an assumption, not pandas' guaranteed behaviour. numpy's floating-point mean of a constant such as `[0.1, 0.1, 0.1]` can leave a residue, and then the correlation against `[1, 2, 3]` is 0.0 rather than NaN. The lemmas that use it hold only where that assumption does.
- Pearson's coefficient, `sqrt` and `round(x, 4)` are floating-point numerics. They are the parameters `corr` and `round`. The sort keys on the rounded value, as the source does.
- `pd.to_datetime` and `pd.to_numeric` are the parameters `toDatetime` and `toNumeric`. A date string `to_datetime` rejects raises, and that is the `DateParseError` result.
- The cache, HTTP request, JSON dump and exception handling in `get_moa_agri_data` (agridata.py:11-69) are I/O.
- main.py is orchestration and I/O, and is not part of this model.
- The HTTP request, printing and file writing in all_crops.py (lines 11-15, 37-43) are I/O. The decoded response is the `Payload` input.
- Only JSON scalars (null, booleans, numbers, strings) are modelled as record values. A JSON array or object as a code or name is not.
- JSON integers and floats are both `real`. The model does not distinguish the key object `1` from `1.0`, which Python treats as one key but prints differently.
- An explicit `"Data": null` makes both all_crops.py:22 and agridata.py:72 raise in Python. The model represents a present `Data` only as a list.
- A finance column named `Price` makes the pandas join raise on the overlapping name. The model assumes the finance columns are not named `Price`.
- A finance table with repeated dates would multiply joined rows. The model's finance table is a map, one row per date, as a date-indexed frame from the download is.
- Scanner.RunScanner does not promise an order among rows with equal absolute best correlation, because pandas' default sort is an unstable quicksort.
- AgriData.ProcessAgriJson does not promise an order among records with equal dates, for the same reason.
- PyText.ParseInt accepts only the ASCII digits `0`-`9`. Python's `int()` also reads every other Unicode decimal digit, such as the full-width `１１３`, and from Python 3.11 it raises on numerals longer than 4300 digits. The model gives None for the first and accepts the second, so `roc_to_ad` is modelled for ASCII numerals of ordinary length.
- AgriData.CleanColumns and AgriData.ProcessAgriJson treat `pd.to_datetime` as judging each rebuilt date string on its own. From pandas 2, `to_datetime` on a column infers one format from the first non-null string and raises on a later string that does not match it, even one that would parse alone. Their error condition is exact only for a per-string parser.
