# PollReader in Dafny

A model of `PollReader.py`, a small reader of political polling data. The
program reads the lines of a CSV file whose first line is a header and whose
data lines hold five fields — month, date, a sample descriptor such as
`1880 LV` (sample size and sample type), Harris's result and Trump's result —
builds a column-oriented table from them (`build_data_dict`), and answers three
questions about that table:

- `highest_polling_candidate`: the highest single result and who holds it, or
  `EVEN` on a tie;
- `likely_voter_polling_average`: each candidate's mean result over the polls
  whose sample type is exactly `LV`;
- `polling_history_change`: the mean of the first `k = min(30, n)` rows (the
  latest polls, since the file lists the most recent first) minus the mean of
  the last `k` rows (the earliest polls), per candidate.

The Dafny project is organised as the program is:

- `wrappers.dfy` (`Wrappers`): `Option` and `Result`.
- `text.dfy` (`Text`): Python's `str.strip()`, `str.split(',')` and
  `str.split()` on `seq<char>`, each specified by what it returns. `strip()`
  is shown to admit one result only (`StripUnique`); the two splits are paired
  with their inverses (`Join`, and `Interleave` of tokens with arbitrary
  whitespace runs).
- `numbers.dfy` (`Numbers`): `int()` and `float()` on plain decimal text,
  paired with a decimal renderer (`ShowNat`, `ShowInt`) they read back. Their
  whitespace is `str.isspace()` without the separators U+001C..U+001F, which
  `strip()` drops but the numeric conversions reject.
- `polls.dfy` (`Polls`): the row record, the table (rows in input order) and
  the six-column view the program keeps, with the translation both ways.
- `parser.dfy` (`Parser`): `build_data_dict` as a pure function
  `Parse(lines): Result<Table, ParseError>`, and the program's column-appending
  loop `BuildDataDict`, proved to produce the column view of `Parse`.
- `aggregates.dfy` (`Aggregates`): the three queries, each as a declarative
  function over exact reals and as the program's loop, proved equal.

The file reading in the constructor becomes the `lines` parameter; the
program's results are `real`s instead of floats, and its formatted verdict
string (`"Harris 57.0%"`) becomes a `(Label, real)` pair.

## Model

| member | source | states |
|---|---|---|
| Text.Strip | PollReader.py:72-74 | the stripped line is the slice left once all leading and trailing whitespace is removed; it is empty exactly when the line is blank |
| Text.StripUnique | PollReader.py:72 | that description of `strip()` admits exactly one result |
| Text.SplitOn | PollReader.py:79 | `split(',')` gives pieces free of commas that join back to the line, one more piece than there are commas |
| Text.SplitJoin | PollReader.py:79 | splitting comma-joined comma-free pieces gives the pieces back |
| Text.Words | PollReader.py:91 | `split()` gives non-empty whitespace-free tokens, and none at all exactly when the text is all whitespace |
| Text.WordsOfLayout | PollReader.py:91 | tokens separated by non-empty whitespace runs, with optional whitespace at either end, split back into exactly those tokens |
| Text.LayoutOfWords | PollReader.py:91 | every text is its `split()` tokens laid out that way, so the tokens are the text's maximal whitespace-free runs in order |
| Text.WordsOfWordThen | PollReader.py:91 | a token followed by nothing or by whitespace-led text splits into that token and then the tokens of the rest |
| Numbers.ShowNat | PollReader.py:101-102 | the decimal rendering of a natural number is a non-empty digit string denoting that number, without a leading zero |
| Numbers.ParseInt | PollReader.py:101-102 | `int()` of a field: the field without surrounding whitespace (`str.isspace()` less U+001C..U+001F), read as an integer literal; what it accepts and returns is stated by `Numbers.ParseIntLiteral`, `Numbers.ParseIntSigned` and `Numbers.SeparatorRejected` |
| Numbers.ParseIntLiteral | PollReader.py:101-102 | once surrounding whitespace is dropped, `int()` succeeds exactly on an optional sign followed by at least one digit; any other character makes it fail |
| Numbers.NumberStripIsStrip | PollReader.py:101-105 | on text holding none of U+001C..U+001F, `int()` and `float()` drop exactly the whitespace `strip()` drops |
| Numbers.SeparatorRejected | PollReader.py:101-105 | a U+001C..U+001F character anywhere in a field, even at its ends where `strip()` would drop it, makes `int()` and `float()` fail |
| Numbers.ParseIntSigned | PollReader.py:101-102 | `int()` reads an optional sign followed by digits, leading zeros allowed, as the number the digits denote, negated after a minus sign |
| Numbers.ParseIntShowInt | PollReader.py:101-102 | `int()` reads back every integer's decimal rendering (CPython's digit limit aside, see below) |
| Numbers.ParseReal | PollReader.py:104-105 | `float()` of a field: the field without surrounding whitespace, read as a decimal literal; what it accepts and returns is stated by `Numbers.ParseRealLiteral`, `Numbers.ParseRealSignedDecimal`, `Numbers.ParseRealOfInt` and `Numbers.SeparatorRejected` |
| Numbers.ParseRealLiteral | PollReader.py:104-105 | once surrounding whitespace is dropped, `float()` succeeds only on an optional sign, digits and at most one decimal point, with at least one digit (so `.`, `+` and `-.` fail) |
| Numbers.ParseRealOfInt | PollReader.py:104-105 | `float()` accepts every text `int()` accepts, with the same value |
| Numbers.ParseRealSignedDecimal | PollReader.py:104-105 | `float()` accepts an optional sign, whole digits, a point and fractional digits, with at least one digit, and reads the value of the digits, negated after a minus sign |
| Numbers.ParseRealTwoDecimals | PollReader.py:104-105 | `float()` reads any two-decimal fraction `0.de` as `d/10 + e/100` |
| Numbers.IntLiteralIsRealLiteral | PollReader.py:101-105 | a stripped literal `int()` accepts is one `float()` accepts, with the same value |
| Numbers.DecimalLiteral | PollReader.py:104-105 | an unsigned literal `whole.f` reads as the value of its whole digits plus its fractional digits over the matching power of ten |
| Numbers.ShowIntIsWord | PollReader.py:91-94 | a rendered integer holds no whitespace, so `split()` keeps it as a single token |
| Polls.ToColumns | PollReader.py:58-65 | the six columns built from a table are equally long and entry `i` of each comes from row `i` |
| Polls.RowsOfColumns | PollReader.py:58-65 | reading the rows back out of the column view gives the table |
| Polls.ColumnsOfRows | PollReader.py:58-65 | an aligned column view is exactly the view of the rows it describes |
| Polls.ToColumnsSnoc | PollReader.py:100-105 | appending a row appends each of its fields to the end of its column |
| Parser.DataFields | PollReader.py:71-82 | a line yields fields exactly when it is not line 0, not blank and its stripped text has at least four commas; the fields are comma-free and join back to the stripped line, so they are the pieces between its commas |
| Parser.SplitSample | PollReader.py:91-97 | the descriptor gives no size exactly when it is all whitespace; otherwise a size token and a type token that is a single token or empty |
| Parser.SplitSampleSizeAndType | PollReader.py:91-94 | a descriptor of two or more tokens, whatever whitespace surrounds and separates them, gives the first as the size and the second as the type, later tokens ignored |
| Parser.SplitSampleSizeOnly | PollReader.py:91-97 | a descriptor of a single token, whatever whitespace surrounds it, gives that token as the size and the empty string as the type |
| Parser.ConvertFields | PollReader.py:84-105 | a row is built exactly when the descriptor has a token and date, size and both results convert; its fields are those conversions of fields 1 to 5; a blank descriptor is the missing-size error |
| Parser.Classify | PollReader.py:71-82 | a line is skipped exactly when it is not a data line |
| Parser.DataIndices | PollReader.py:71-82 | the data lines' indices, increasing, holding every data line and nothing else |
| Parser.Parse | PollReader.py:71-105 | `build_data_dict` as a function of the file's lines: the rows of the data lines or the first error; its result is stated by `Parser.ParseRows`, `Parser.ParseSucceeds` and `Parser.ParseFailsAtFirstRejected` |
| Parser.ParseRows | PollReader.py:71-105 | a successful parse has one row per data line, in input order, row `j` converted from the `j`-th data line |
| Parser.ParseSucceeds | PollReader.py:99-105 | a parse succeeds exactly when no data line fails to convert |
| Parser.ParseFailsAtFirstRejected | PollReader.py:99-105 | a failed parse carries the error of the first data line that fails |
| Parser.BadFieldFailsParse | PollReader.py:101-105 | a non-numeric date, size or result on any data line makes the parse fail instead of being coerced or skipped |
| Parser.HeaderOnlyIsEmpty | PollReader.py:57-68 | input of at most one line gives the empty table |
| Parser.HeaderIgnored | PollReader.py:75-77 | the header's content never affects the result |
| Parser.SkippedLineInvisible | PollReader.py:72-82 | removing a blank or short line after the header leaves the result unchanged |
| Parser.GatherStops | PollReader.py:99-105 | once a line fails, later lines cannot change the outcome |
| Parser.ConvertRendered | PollReader.py:84-105 | fields written the way the data file writes a poll (integers in decimal, a descriptor whose first two tokens are the size and the type, results as `0.de`, any further fields ignored) convert back to exactly that poll |
| Parser.ConvertErrorOrder | PollReader.py:91-105 | a conversion reports the date's failure when the descriptor has a token and the date does not convert, the size's when everything before it converted, then Harris's, then Trump's, each in both directions |
| Parser.ReadLine | PollReader.py:72-105 | one pass of the program's loop body, strip, blank and header tests, comma split, short-line test and conversion, gives that line's outcome |
| Parser.BuildDataDict | PollReader.py:46-105 | the column-appending loop returns the column view of the parsed table, aligned, or the parse's error and no table |
| Aggregates.MaxResult | PollReader.py:121-130 | the scan's result is at least 0.0 and every result, and is 0.0 or one of the results |
| Aggregates.Highest | PollReader.py:118-137 | `(Even, 0.0)` on an empty table; otherwise the value is the largest of 0.0 and every result (at least each, and 0.0 or one of them), Harris named exactly when one of his results is positive and beats every Trump result, Trump symmetrically, the named candidate holding that value |
| Aggregates.Tie | PollReader.py:132-133 | a Harris result equal to a Trump result that no result exceeds gives `Even` with that value, or 0.0 when it is not positive |
| Aggregates.HighestHarris | PollReader.py:132-135 | Harris's maximum exceeds Trump's exactly when some positive Harris result beats every Trump result |
| Aggregates.HarrisLeader | PollReader.py:132-135 | a positive Harris result that no Harris result exceeds and every Trump result is below makes the verdict Harris at exactly that value |
| Aggregates.MaxOf | PollReader.py:121-130 | the program's scan of one result column from 0.0 yields that column's maximum as `MaxResult` describes it |
| Aggregates.HighestPollingCandidate | PollReader.py:107-137 | the program's two scans from 0.0 and its three-way comparison give `Highest` |
| Aggregates.LikelyRows | PollReader.py:153-159 | only rows typed `LV` are selected |
| Aggregates.LikelyRowsMembers | PollReader.py:153-159 | the selected rows are table rows, and every row typed exactly `LV` is selected |
| Aggregates.LikelyIndices | PollReader.py:153-159 | the indices of the rows typed exactly `LV`, strictly increasing, holding every such index and nothing else |
| Aggregates.LikelyRowsAt | PollReader.py:153-159 | the selected rows are the rows at those indices, in order, one per `LV` row, duplicates included |
| Aggregates.LikelyVoterAverage | PollReader.py:148-166 | `(0.0, 0.0)` without likely-voter rows; otherwise each value times their count is the candidate's total over them |
| Aggregates.NoLikelyVoters | PollReader.py:161-162 | a table without an `LV` row averages to `(0.0, 0.0)` |
| Aggregates.OtherRowsIrrelevant | PollReader.py:155-158 | rows not typed `LV` can change arbitrarily without changing the average |
| Aggregates.LikelyAverageWithin | PollReader.py:164-166 | for either candidate, when every likely-voter result of that candidate lies in `[lo, hi]` so does that candidate's average |
| Aggregates.LikelyVoterPollingAverage | PollReader.py:140-166 | the program's running totals and count give `LikelyVoterAverage` |
| Aggregates.Window | PollReader.py:184-187 | `k` is 30 or `n`, at most both, at least 1 for a non-empty table, and the windows are disjoint from 60 rows on |
| Aggregates.HistoryChange | PollReader.py:180-214 | `(0.0, 0.0)` for an empty table; otherwise both windows hold `k >= 1` rows and the change is latest mean minus earliest mean |
| Aggregates.SmallTableNoChange | PollReader.py:184-214 | with at most 30 rows both windows are the whole table and the change is exactly zero |
| Aggregates.OnlyWindowsMatter | PollReader.py:189-207 | rows outside the two windows do not affect the change |
| Aggregates.ReverseNegatesChange | PollReader.py:189-214 | reading the table in the opposite order negates both changes |
| Aggregates.SumRange | PollReader.py:191-207 | the program's window loop adds up exactly the rows from `lo` up to `hi`, for each candidate |
| Aggregates.TotalBounds | PollReader.py:153-166 | a sum of `n` results each within `[lo, hi]` lies within `[n * lo, n * hi]` |
| Aggregates.PollingHistoryChange | PollReader.py:169-214 | the program's two summing loops over `0..k-1` and `n-k..n-1`, divided by `k`, give `HistoryChange` |
| Aggregates.ThreePollsHighest | PollReader.py:132-137 | of polls at 57/40, 50/45 and 45/50 Harris holds the highest result, 0.57 |
| Aggregates.ThreePollsLikelyAverage | PollReader.py:148-166 | of those, the two `LV` polls average 0.51 and 0.45 |
| Aggregates.ThreePollsNoChange | PollReader.py:180-214 | three polls fit one window and show no change |

## Left out

- Reading the file (`__init__`, PollReader.py:9-44): the model takes the lines as a parameter.
- `main` and its printing (PollReader.py:254-275), and the `unittest` class (PollReader.py:217-251), whose expected percentages depend on a data file that is not part of this model.
- The `:.1%` and `:.2%` formatting of results: presentation only; `Highest` returns the verdict and the raw value.
- Floating point: results are exact reals, so rounding and summation order are not modelled.
- Numbers.ParseIntLiteral: Python's `int()` also accepts `_` digit separators and non-ASCII digits; such text fails in the model. It also rejects literals of more than 4300 digits (CPython's default `int_max_str_digits`), which the model accepts.
- Numbers.ParseRealLiteral: Python's `float()` also accepts exponents, `inf`, `nan`, `_` separators and non-ASCII digits; such text fails in the model.
- Parser.BuildDataDict: when a conversion fails (PollReader.py:101-105) the program has already appended the month, and depending on the field more values, before the exception escapes, leaving its lists misaligned; on a blank sample descriptor (PollReader.py:96) it fails before any append, leaving the earlier rows aligned. In both cases the model yields the error and no table.
- Parser.ParseFailsAtFirstRejected: errors carry the failing field only; the program's `ValueError`/`IndexError` names no row, and the model follows the program.
- Misaligned column lists as input to the queries: the table is a sequence of rows, so it is aligned by construction. The program's "either result column is empty" test (PollReader.py:118) therefore reduces to "the table is empty".
- The recency order of the rows is assumed, not checked, by `polling_history_change`; the model keeps that assumption.
