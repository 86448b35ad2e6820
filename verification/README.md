# Column consistency analysis, modelled in Dafny

The system scans spreadsheet columns and reports how uniform each one is. For
one column, `evaluate_column` does the following:

- It separates null cells from non-null ones.
- It decides the column's shape from the first non-null cell alone. The shapes
  are `number`, `date`, `arabic`, `english` and `other`, tried in that priority
  order.
- It checks every non-null cell against that shape. Number columns also need
  each cell's text length to lie within 30% of the column's average length.
- It reports the counts, the allowed length bounds, a consistency percentage
  and the inconsistent values in column order.

This project models the core of `index.py` (lines 24–174) as pure Dafny
functions and proves properties about them.

The modules follow the program's layers:

- `Cells` (`cells.dfy`): raw cell values, Python's `str.strip`/`str.isspace`,
  `is_null` and `to_text`.
- `Classifiers` (`classifiers.dfy`): `is_number`, `is_date`,
  `is_english_words` and `is_arabic_words`. It also holds the two word regular
  expressions as character classes, the date prefilter and `pattern_matches`.
- `Detector` (`detector.dfy`): `detect_pattern_from_first_non_empty`.
- `Evaluator` (`evaluator.dfy`): `evaluate_column`, its per-cell loop, the
  length band, the reported bounds and the percentage.
- `Sequences` (`sequences.dfy`): an order-preserving filter and the
  subsequence relation. These describe the non-null mask and the list of
  inconsistent values.
- `Scenarios` (`scenarios.dfy`): whole-column reports for worked examples.

Library behaviour the model cannot see is passed in as a `Lib` value of total
functions:

- whether `float(s)` returns or raises;
- whether dateutil's `parse(s, fuzzy=False)` returns or raises;
- `str.isdigit` on one character.

The operations and the general lemmas are stated for all such libraries. The
worked columns in `Scenarios` assume facts about the library as their
preconditions: that `float` rejects the words in the column, and, for the
letter-word columns, that `str.isdigit` holds of no ASCII letter. The length band
`avg*0.70 <= len <= avg*1.30` is modelled exactly over integers as
`7*sum <= 10*count*len <= 13*sum`. `WithinBandIsRealBand` proves this equals
the band over exact reals.

Two consequences of the code are worth spelling out:

- **Column 5, 12, 9, "nine".** The column scores 25%, with 1 consistent value
  out of 4. The length check at index.py:150 compares each length with the
  unrounded band, 1.4 to 2.6 characters, and not with the reported bounds 1
  and 3. So "5" and "9" fail the length check and "nine" fails the number
  check. See `Scenarios.MixedNumberColumn`.
- **The value "١٢٣ ابجد".** It is detected as `arabic`. The Arabic-Indic digits
  U+0661–U+0663 lie inside the class U+0600–U+06FF at index.py:28. The date
  prefilter at index.py:53-56 fails, because the text has no separator and no
  run of ASCII letters. See `Scenarios.ArabicDigitsAndLettersColumn`.

## Model

| member | source | states |
|---|---|---|
| Cells.Strip | index.py:31 | `str.strip()`: the result is a contiguous slice of the input with only whitespace cut from both ends, it neither starts nor ends with whitespace, and it is empty exactly when the input is all whitespace |
| Cells.StripKeepsTrimmed | index.py:31 | text with no whitespace at either end is returned unchanged by `strip` |
| Cells.StripIdempotent | index.py:52 | stripping an already stripped text changes nothing |
| Cells.IsNull | index.py:30-31 | a cell is null exactly when pandas reports it missing or it is a string of whitespace only |
| Cells.ToText | index.py:33-34 | the display text is empty for a null cell; it is the string itself for a non-null string, which then has visible content; it is "True"/"False" for a bool and the value's own `str()` text for numeric, date-typed and other cells |
| Classifiers.FullMatchPlus | index.py:24-28 | `fullmatch` of `^[class]+$` accepts exactly the non-empty texts whose every character is in the class |
| Classifiers.HasLetterRun | index.py:54 | `re.search('[A-Za-z]{3,}')` succeeds exactly when three consecutive ASCII letters occur somewhere |
| Classifiers.IsNumber | index.py:36-45 | null is never a number; a non-boolean numeric cell is a number exactly when it is not an infinite Python float; a bool, string, date-typed or other cell is a number exactly when `float` accepts its text |
| Classifiers.LooksLikeDate | index.py:52-56 | the date prefilter: some character is a digit, and the text has a separator `-`, `/`, `:`, `.` or a run of three ASCII letters (its meaning is stated by `Classifiers.IsDate`) |
| Classifiers.IsDate | index.py:47-61 | null is never a date; a date-typed cell always is; any other accepted cell has a digit in its stripped text, and also a separator or a run of three ASCII letters, and the parser accepted that text; conversely, passing the prefilter and the parser means acceptance |
| Classifiers.IsEnglishWords | index.py:63-66 | accepted exactly when the cell is a string whose stripped text is non-empty and made only of A–Z, a–z, space, `_`, `-`, `.` |
| Classifiers.IsArabicWords | index.py:68-71 | accepted exactly when the cell is a string whose stripped text is non-empty and made only of U+0600–U+06FF, space, `_`, `-`, `.` |
| Classifiers.PatternMatches | index.py:92-103 | null cells match every pattern and every cell matches `other`; for a non-null cell, `number`, `date`, `arabic` and `english` match exactly when `is_number`, `is_date`, `is_arabic_words` and `is_english_words` accept it |
| Classifiers.NullMatchesNoClassifier | index.py:36-71 | all four classifiers reject a null cell |
| Classifiers.WordsRejectAsciiDigits | index.py:63-71 | a string with an ASCII digit in its stripped text is neither English nor Arabic words |
| Detector.FirstNonNullExists | index.py:78-80 | a column that is not all null has a first non-null cell |
| Detector.Classify | index.py:81-89 | the chosen pattern's classifier accepts the cell and every higher-priority classifier rejects it: number before date before Arabic before English before other |
| Detector.DetectPattern | index.py:73-90 | an all-null column is `other`; otherwise the pattern is the classification of the first non-null cell |
| Detector.DetectIgnoresLaterCells | index.py:78-89 | two columns that agree up to and including the first non-null cell get the same pattern |
| Detector.DetectFromSample | index.py:78-90 | leading nulls, one non-null value and any tail: the pattern is that value's classification |
| Detector.ClassifiedCellMatches | index.py:81-103 | a non-null cell matches the pattern it is classified as |
| Detector.SampleMatchesDetectedPattern | index.py:133-146 | the first non-null cell matches the detected pattern |
| Detector.NumberTakesPriority | index.py:81-82 | a first non-null cell that is a number makes the column `number`, whatever else accepts it |
| Evaluator.TextLength | index.py:145 | a cell's length is the length of its display text (its meaning is stated through `Cells.ToText`) |
| Evaluator.LengthSum | index.py:136-137 | the sum of the text lengths of the non-null cells; `Evaluator.LengthSumUniform` states its value for cells of one length |
| Evaluator.WithinBand | index.py:138-150 | the length band, multiplied through by ten times the count; `Evaluator.WithinBandIsRealBand` proves it equal to `avg*0.70 <= len <= avg*1.30` |
| Evaluator.Conforms | index.py:146-154 | a cell is consistent when it matches the pattern and, in number columns only, lies in the band; `Evaluator.FlaggedExactlyWhenNonConforming` and `Evaluator.NumberColumnFlags` state what it decides |
| Evaluator.CheckCells | index.py:141-157 | every cell the loop visits is counted as consistent or listed as inconsistent, never both |
| Evaluator.CheckCellsFlagsRejected | index.py:144-157 | the loop's inconsistent list is exactly the non-conforming cells, in order |
| Evaluator.LengthGateOnlyForNumber | index.py:148-152 | outside number columns the verdicts do not depend on the length sum or count |
| Evaluator.AllowedMin | index.py:168 | the reported minimum is `floor(avg*0.70)` (0 with no data) |
| Evaluator.AllowedMax | index.py:169 | the reported maximum is `ceil(avg*1.30)` (0 with no data) |
| Evaluator.EvaluateColumn | index.py:108-174 | total = nulls + non-nulls; consistent + inconsistent = non-nulls; the list has one entry per inconsistent cell; the pattern is the detected one; the list is the rejected non-null cells in order; a column with no data reports `other` and nothing inconsistent |
| Evaluator.AverageLength | index.py:136-137 | the average length times the non-null count is the length sum |
| Evaluator.WithinBandIsRealBand | index.py:137-150 | the integer band check is equivalent to `avg*0.70 <= len <= avg*1.30` over exact reals |
| Evaluator.ConsistencyPercentage | index.py:159-160 | the percentage times the non-null count is 100 times the consistent count, and it is 100 for a column with no data; so it lies in 0..100 and is 100 exactly when nothing is inconsistent |
| Evaluator.NullCountCountsNulls | index.py:112-116 | the null count equals the number of null cells, counted independently |
| Evaluator.AllNullColumnReport | index.py:118-131 | no data is reported exactly when every cell is null, and then the report is `other`, zero counts, bounds 0, 100% and an empty list |
| Evaluator.InconsistentValuesInColumnOrder | index.py:144-157 | the inconsistent values form a subsequence of the column |
| Evaluator.InconsistentValuesOccurrences | index.py:144-157 | a value occurs in the list as often as in the column if it is non-null and does not conform, otherwise never |
| Evaluator.FlaggedExactlyWhenNonConforming | index.py:144-157 | a column value is listed exactly when it is non-null and does not conform |
| Evaluator.NonNumberColumnFlagsPatternMisses | index.py:146-157 | outside number columns a value is listed exactly when it is non-null and the pattern's classifier rejects it |
| Evaluator.NumberColumnFlags | index.py:145-157 | in number columns a value is listed exactly when it is non-null and not a number or outside the length band |
| Evaluator.DateColumnFlags | index.py:146-157 | in date columns a value is listed exactly when it is non-null and `is_date` rejects it |
| Evaluator.ArabicColumnFlags | index.py:146-157 | in Arabic columns a value is listed exactly when it is non-null and `is_arabic_words` rejects it |
| Evaluator.EnglishColumnFlags | index.py:146-157 | in English columns a value is listed exactly when it is non-null and `is_english_words` rejects it |
| Evaluator.OtherColumnFlagsNothing | index.py:144-157 | an `other` column lists nothing and scores 100% |
| Evaluator.SampleConsistentOutsideNumber | index.py:133-157 | outside number columns the cell that fixed the pattern is never listed |
| Evaluator.LeadingNumberFlagsNonNumbers | index.py:133-157 | once a leading number fixes the pattern, every non-null non-number value in the column is listed |
| Evaluator.LengthSumUniform | index.py:136-137 | with one common text length, the length sum is count times that length |
| Evaluator.UniformNumberColumnConsistent | index.py:136-157 | a number column whose non-null values are all numbers of one length lists nothing |
| Evaluator.ReportedBoundsContainBand | index.py:138-169 | every length the band accepts lies between the reported minimum and maximum |
| Scenarios.LetterWordIsEnglish | index.py:81-89 | a word of ASCII letters that `float` rejects is classified English |
| Scenarios.ThreeMatchingCells | index.py:108-174 | three non-null values that all match the first one's non-number pattern give a fully consistent column |
| Scenarios.LetterWordsColumn | index.py:108-174 | three letter words (such as "Alice", "Bob", "Charlie") give an English column, 3 consistent, 100% |
| Scenarios.EnglishColumnListsNumber | index.py:108-157 | a letter word followed by a number: the column is English, the number is listed and the word is not |
| Scenarios.LengthBandColumn | index.py:136-160 | numbers of lengths 1, 2, 1 and a 4-letter word: band 1.4–2.6, bounds 1 and 3, only the 2-character number consistent, 25% |
| Scenarios.MixedNumberColumn | index.py:136-160 | the column 5, 12, 9, "nine" reports 1 consistent value, lists 5, 9 and "nine", and scores 25% |
| Scenarios.SingleValueColumn | index.py:108-174 | a single non-null value of a non-number pattern gives that pattern and a fully consistent column |
| Scenarios.ArabicBlockTextIsArabic | index.py:47-71 | text made of Arabic-block characters and inner spaces fails the date prefilter and is classified Arabic |
| Scenarios.ArabicDigitsAndLettersColumn | index.py:68-71 | "١٢٣ ابجد" alone in a column is Arabic and consistent |
| Scenarios.AllNullColumn | index.py:118-131 | the column None, None, "" reports `other`, 3 nulls, nothing inconsistent, 100% |

## Left out

- Mounting Google Drive, listing Excel files, reading sheets, and writing the summary and detail workbooks (index.py:7-19 and 176-275) are I/O. The model starts from a column of cells.
- The per-column summary and detail rows, the 10-value sample string and the error rows (index.py:197-250) are report assembly around `evaluate_column`.
- `float(str(x))`, dateutil's `parse` and `str.isdigit` are not modelled. They are parameters (`Lib`), and every result holds whatever they return.
- `str(x)` of non-string values is not computed. A numeric, date-typed or other cell carries its display text as given. Only `str(True)`/`str(False)` are spelled out.
- `pd.isna` is modelled as a `Missing` cell kind covering None, NaN and NaT, so NaN is never a `Num`. `Num(floatInf = true, …)` stands for an infinity of Python's float type, np.float64 included. Other numpy infinities, such as `np.float32('inf')`, pass the `np.floating` test and are written with `floatInf = false`, because `is_number` accepts them.
- Evaluator.WithinBand: the check uses exact rational arithmetic. The source compares against the floating-point products `avg*0.70` and `avg*1.30`, which can differ by one unit in the last place when the exact product is an integer.
- Evaluator.AllowedMin and Evaluator.AllowedMax: the floor and ceiling are of the exact products. The floating-point rounding at the edge described for the band is not modelled.
- Evaluator.ConsistencyPercentage and Evaluator.AverageLength: these are the values before `round(…, 2)`. Rounding to two decimals is not modelled.
- Classifiers.IsNumber: for bool, date-typed and other non-numeric cells the answer is whatever `float` says about the display text. That `float("True")` raises is not built in.
- Column order and duplicate handling follow pandas' positional iteration. Index labels (`idx` in the loop) are not modelled because the loop never uses them.
