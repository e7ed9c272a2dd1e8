# Accountant-Assist: a Dafny model of the statement-to-forecast core

`accountant.py` turns Bank Jago PDF statements into a month-end balance forecast
for a student living away from home. This project models its numeric and textual
core in Dafny and proves properties of that model. The core has five parts:

- **Amount normalisation** (`bersihkan_nominal`), module `Nominal`. It drops `+`,
  `-` and spaces, deletes the `.` thousands separators and turns `,` into the
  decimal point. Python's `float()` then reads the residue. An unparsable
  residue gives `0.0`. `float()` ignores a narrower set of blanks than
  `strip()` and `\s`: the separators U+001C to U+001F count as whitespace for
  the pattern but make `float()` fail (`Scanner.SeparatorLine`).
- **Line extraction** (the page and line loop of `extract_transaksi_harian_jago`),
  module `Scanner`. The regular expression `-\s?[0-9.,]+` is modelled as a
  left-to-right scan with greedy runs, which is what `re.findall` does. The
  rightmost match of a line is normalised, and a positive amount makes a
  transaction out of the stripped line. A document is its sequence of page texts,
  each `None` when no text could be extracted. The first two pages are skipped,
  and so are pages with no text. Each remaining page is split on `"\n"`.
- **Aggregation** (`pdfs_to_dataframe`), module `Aggregator`. Documents that yield
  nothing are dropped. The rest are concatenated in order, and the rows with a
  positive amount are kept.
- **Routine filter** (`filter_pengeluaran_rutin`), modules `Stats` and `Routine`.
  Quantiles follow the library's linear interpolation: the fractional rank is
  `(n - 1) q`. Stage one keeps the amounts between `max(Q1 / 2, 5.000)` and
  `min(Q3 + 1.5 IQR, 100.000)`. Stage two keeps the amounts between the 20% and
  80% quantiles of what survived.
- **Forecast** (the numeric core of `prediksi_harian`), module `Forecast`. It
  computes:
  - the days left in a 30-day month;
  - the daily estimate, which is the routine median plus 15%, rounded to
    thousands;
  - the projected final balance;
  - the verdict band and its recommended amounts;
  - the day-by-day balance trajectory.

Amounts are exact `real`s. Python's `int()` is truncation toward zero
(`Forecast.Truncate`). `round(x, -3)` is round-half-to-even at the thousands
digit (`Forecast.RoundThousands`). Shared vocabulary lives in the modules
`Types` and `Text`:
- transactions;
- `Option` and `Result`;
- order-preserving subsequences;
- a generic row filter;
- `strip()`, the stripping inside `float()`, `split("\n")` and single-character
  `replace`.

Where the code and its descriptions differ, the model follows the code:
- The source comment gives `-21,500` as an example amount. In the code, the
  comma is the decimal point, so that token is 21.5 (`Nominal.CommaExample`).
  The thousands form `-21.500` is 21.500 (`Nominal.ThousandsExample`).
- `round(x, -3)` on a float rounds half to even. A tie at 500 goes to the even
  thousand.
- Stage two uses closed bounds, so a stage-one set of three or more rows always
  keeps something (`Routine.ThreeOrMoreKeepSome`). Two distinct stage-one amounts,
  however, both fall strictly outside the 20%-80% band, so nothing is kept
  (`Routine.TwoDistinctEmptied`).
- When stage one keeps nothing, the library's quantiles of an empty column are
  not-a-number. Every comparison with them is false, so stage two returns
  nothing. The model returns the empty sequence directly.

## Model

| member | source | states |
|---|---|---|
| Text.Trim | accountant.py:49 | `strip()` never lengthens the line, and the result neither starts nor ends with whitespace |
| Text.TrimSlice | accountant.py:49 | what `strip()` keeps is a contiguous slice of the line with only whitespace cut on either side |
| Text.FloatTrim | accountant.py:20 | the blanks `float()` ignores are cut from both ends, and the result neither starts nor ends with one; the separators U+001C to U+001F are not among them |
| Text.StripSlice | accountant.py:20 | what the strip inside `float()` keeps is a contiguous slice with only ignorable blanks cut on either side |
| Text.Split | accountant.py:41 | splitting a page's text on newlines gives at least one part, no part holds a newline, and joining the parts with newlines restores the text |
| Text.SplitJoin | accountant.py:41 | splitting is the inverse of joining newline-free lines |
| Text.Remove | accountant.py:17 | `replace(c, "")` leaves no `c`, never lengthens, and introduces no new character; `Text.RemoveKeepsRest` adds that every other character is kept |
| Text.RemoveKeepsRest | accountant.py:17 | deleting `c` keeps every other character in order and as often as it occurs: the result is a subsequence whose multiset is the input's with `c` removed |
| Text.Replace | accountant.py:18 | `replace(",", ".")` keeps the length and rewrites exactly the commas, position by position |
| Nominal.Clean | accountant.py:16-18 | the residue after the three replace steps holds no `+`, `-`, space (U+0020) or comma; only U+0020 is removed, so a tab or U+001C stays, as `Nominal.CleanIsPerCharacter` fixes |
| Nominal.CleanIsPerCharacter | accountant.py:17-18 | the sequential replace passes equal an independent per-character rewrite: signs, spaces (U+0020 only) and `.` vanish, `,` becomes `.`, every other character stays |
| Nominal.ParseDecimal | accountant.py:20 | `float()` on the residue succeeds exactly when the residue, stripped of the blanks `float()` ignores, is digits with at most one point and at least one digit. Digits alone give their number. A point at position `k` gives the digits before it plus the digits after it over a power of ten, either side possibly empty |
| Nominal.ParseLiteral | accountant.py:20 | the literal parses exactly when it has the decimal-literal shape. Its value is the digits' number when there is no point; otherwise it is the whole digits plus the fraction digits over a power of ten, so `.5` is 0.5 |
| Nominal.Normalise | accountant.py:15-22 | the normalised amount is never negative. It is the parsed value of the residue when `float()` succeeds, and `0.0` whenever `float()` would raise |
| Nominal.NormaliseRendered | accountant.py:15-22 | normalisation inverts the Indonesian rendering: a sign part, `.`-grouped thousands and an optional `,` with cents give back exactly that number |
| Nominal.NormaliseDecimalComma | accountant.py:17-20 | `-<digits>,<digits>` is read with the comma as the decimal point |
| Nominal.NormaliseTwoCommas | accountant.py:18-22 | any token with two or more commas, wherever they stand and whatever else it holds (`-1,2,3`, `-1.000,2,3`), leaves two points in the residue, `float()` fails, and the amount is `0.0` |
| Nominal.NormaliseStray | accountant.py:15-22 | a token holding a character that the replace steps keep and that is neither a digit, a point nor a blank `float()` ignores normalises to `0.0` |
| Nominal.SeparatorExample | accountant.py:15-22 | `-<U+001C>5` normalises to `0.0`, because `float()` does not strip the separator |
| Nominal.StripKeeps | accountant.py:20 | the strip inside `float()` keeps every occurrence of every character it does not ignore |
| Nominal.AtMostOnePoint | accountant.py:20 | a literal `float()` accepts holds at most one point |
| Nominal.NormaliseEmptyWhole | accountant.py:15-22 | a token such as `-,5` with no whole digits is the fraction alone: its digits over a power of ten |
| Nominal.NormaliseNoDigit | accountant.py:19-22 | a token without any digit normalises to `0.0` |
| Nominal.ThousandsExample | accountant.py:15-22 | `-21.500` normalises to 21500 |
| Nominal.CommaExample | accountant.py:15-22 | `-21,500` normalises to 21.5 |
| Scanner.MatchAt | accountant.py:44 | the pattern matches at a position exactly when there is a minus, at most one whitespace character and a maximal run of `[0-9.,]`, and the match end is unique (the `+` is greedy) |
| Scanner.SpansAreMatches | accountant.py:44 | every span the `findall` scan reports is a match of the pattern at its start |
| Scanner.SpansDisjoint | accountant.py:44 | the reported spans are non-overlapping and in left-to-right order |
| Scanner.SpansComplete | accountant.py:44 | the scan misses nothing: every position where the pattern matches starts a reported span |
| Scanner.MatchInterior | accountant.py:44 | no match starts strictly inside another, because the class `[0-9.,]` excludes the minus |
| Scanner.FindAll | accountant.py:44 | `findall` returns one string per reported span, in order: entry `k` is the text of the `k`-th span (each span is a match, by `Scanner.SpansAreMatches`), beginning with `-` and at least two characters long |
| Scanner.LastMatch | accountant.py:44-46 | the rightmost match: absent exactly when the pattern matches nowhere, otherwise a match after which no other match starts |
| Scanner.FindAllLast | accountant.py:44-46 | `match[-1]` is the rightmost match, and the match list is empty exactly when there is none |
| Scanner.ParseLine | accountant.py:44-51 | a line without a match yields nothing; otherwise the rightmost match is normalised, and the line yields a transaction exactly when that amount is positive, namely the stripped line with that amount |
| Scanner.NoMatchNoTransaction | accountant.py:44-45 | a line without a minus sign yields no transaction |
| Scanner.LineAmount | accountant.py:42-51 | a line whose only minus introduces a final class-character token yields the transaction (stripped line, normalised token) exactly when that amount is positive |
| Scanner.SpacedLineAmount | accountant.py:42-51 | with one whitespace character between the minus and the token, the match still runs from the minus to the end of the line, and the line yields (stripped line, normalised match) exactly when that amount is positive |
| Scanner.SeparatorLine | accountant.py:42-51 | a line ending in `-`, one of U+001C to U+001F and class characters has a match but yields no transaction |
| Scanner.RenderedLine | accountant.py:42-51 | a line ending in `-1.250.000`-style amount yields that amount as its transaction |
| Scanner.RenderedCentsLine | accountant.py:42-51 | a line ending in `-21.500,50`-style amount yields that amount, cents included |
| Scanner.ParseLines | accountant.py:42-51 | a run of lines yields a transaction exactly when some line parses to it, one per yielding line and each positive |
| Scanner.ParseLinesInOrder | accountant.py:42-51 | the run's transactions are what each line contributes, concatenated in line order |
| Scanner.ParseLinesAppend | accountant.py:42-51 | extracting two runs of lines is extracting their concatenation |
| Scanner.PageTransactions | accountant.py:38-51 | a page without text, or with empty text, yields nothing; otherwise it yields exactly the transactions its lines parse to |
| Scanner.PagesAreLines | accountant.py:37-51 | reading page by page equals reading all the pages' lines as one run: page boundaries play no part |
| Scanner.ExtractDocument | accountant.py:37-51 | a document of at most two pages yields nothing; otherwise it yields the line extraction of every line of pages three onward, every amount positive |
| Scanner.CoverPagesIgnored | accountant.py:37 | the first two pages never influence the extracted transactions |
| Aggregator.NonEmpty | accountant.py:68-75 | dropping the empty per-document tables keeps the order and loses no row |
| Types.SelectionIsFilter | accountant.py:84 | an ordered subsequence whose elements all pass the mask, and which has as many elements as pass it, is the mask's selection: such contracts fix the result, duplicates included |
| Types.FilterCounts | accountant.py:84 | a boolean mask keeps each row as often as it occurs when the row passes, and never otherwise |
| Aggregator.KeepPositive | accountant.py:84 | the row filter keeps exactly the positive rows, in order, one per positive row |
| Aggregator.Aggregate | accountant.py:77-87 | the aggregate is an ordered selection of the concatenated tables holding exactly their positive rows, one per positive row |
| Aggregator.AggregatePositive | accountant.py:77-87 | when every table is already positive, aggregation is plain concatenation |
| Aggregator.LoadAll | accountant.py:68-87 | loading is the in-order concatenation of the documents' extracted transactions: the positivity filter removes nothing after extraction |
| Aggregator.LoadAllAppend | accountant.py:68-87 | loading documents in two batches and concatenating equals loading them together |
| Stats.Sort | accountant.py:119-120 | the sample is put into ascending order as a permutation of itself |
| Stats.Quantile | accountant.py:119-120 | the linear quantile lies within the sample's range and between the two order statistics around its fractional rank |
| Stats.QuantileBracket | accountant.py:145-146 | an order statistic at or above the fractional rank bounds the quantile from above, and one at or below bounds it from below |
| Stats.QuantileMonotone | accountant.py:145-146 | a higher level never gives a lower quantile, so P20 never exceeds P80 |
| Stats.PairQuantile | accountant.py:145-146 | for two distinct values every level strictly inside (0, 1) gives a quantile strictly between them |
| Stats.QuantileOf | accountant.py:119-120 | the quantile of an unordered sample has a sample element at or below it and one at or above it |
| Stats.QuantileExtremes | accountant.py:119-120 | the 0% and 100% quantiles are the minimum and the maximum |
| Stats.MedianIsMiddle | accountant.py:243 | the 50% linear quantile equals the textbook median: the middle element, or the mean of the two middle ones |
| Stats.Median | accountant.py:243 | `median()` is the textbook middle value of the sorted sample |
| Routine.Band | accountant.py:137-140 | the band selection is an ordered subsequence holding exactly the rows within both inclusive bounds, one per such row |
| Routine.BandKeepsDuplicates | accountant.py:137-140 | a repeated row inside the bounds is kept every time it occurs |
| Routine.BandEmpty | accountant.py:147-150 | when no row lies within the bounds, the band is empty |
| Routine.OutlierBounds | accountant.py:119-134 | the lower limit is the larger of half of Q1 and 5.000; the upper limit is the smaller of the 1.5-IQR whisker and 100.000 |
| Routine.CentralBounds | accountant.py:145-146 | P20 never exceeds P80, and both lie within the range of the stage-one amounts |
| Routine.Stage1 | accountant.py:136-140 | stage one keeps exactly the rows within the outlier limits, in order and one per such row, so every survivor lies between 5.000 and 100.000 |
| Routine.Stage2 | accountant.py:145-150 | stage two keeps exactly the stage-one rows within [P20, P80] of the stage-one amounts, in order and one per such row |
| Routine.RoutineFilter | accountant.py:115-167 | the result is an ordered selection of the input within 5.000-100.000: empty input gives empty output, an empty stage one gives nothing, and otherwise the result is the ordered subsequence of stage one holding one entry for each stage-one row within [P20, P80] |
| Routine.SurvivorsPassBothStages | accountant.py:137-150 | every routine row is an input row inside the outlier limits and inside the central band |
| Routine.ThreeOrMoreKeepSome | accountant.py:145-150 | three or more stage-one rows always leave at least one routine row |
| Routine.TwoDistinctEmptied | accountant.py:145-150 | two stage-one rows with distinct amounts leave no routine row |
| Routine.ExampleLimits | accountant.py:119-134 | the sample 10.000, 20.000 has quartiles 12.500 and 17.500, hence outlier limits 6.250 and 25.000 |
| Routine.TwoTransactionsExample | accountant.py:119-150 | 10.000 and 20.000 both pass stage one (limits 6.250 and 25.000), and stage two then keeps neither |
| Forecast.RoundThousands | accountant.py:251 | the result is a multiple of 1000 no farther than 500 from the input and nearest among all multiples of 1000, with a tie going to the even thousand |
| Forecast.DailyEstimate | accountant.py:248-251 | the daily estimate is a multiple of 1000 within 500 of the median plus 15% |
| Forecast.EstimateRange | accountant.py:243-251 | a routine median between 5.000 and 100.000 gives a daily estimate between 6.000 and 115.000 |
| Forecast.Truncate | accountant.py:284 | `int()` moves less than one toward zero and keeps the sign |
| Forecast.Classify | accountant.py:277-307 | the four verdict bands partition the final balance at 0, 100.000 and 300.000. The shortfall, the top-up to 100.000 and the surplus over 300.000 are as printed. The daily budget is a multiple of 1000 within 1000 of balance per day and no larger in magnitude, which is truncation toward zero |
| Forecast.BudgetTruncates | accountant.py:277-284 | 5.000 over two days is 2.500 a day, so the daily budget is 2.000 |
| Forecast.ClassifyMonotone | accountant.py:277-307 | a larger final balance never gives a worse verdict |
| Forecast.Simulate | accountant.py:313-320 | the trajectory starts at today's balance and day, drops by the estimate each day, and its day `k` balance is the balance minus `k` estimates |
| Forecast.Project | accountant.py:241-320 | a projection for routine rows within 5.000-100.000 has an estimate between 6.000 and 115.000. Its final balance, spend and verdict agree, and its trajectory starts at today's balance and day, drops by the estimate each day and ends at the final balance on day 30 |
| Forecast.Predict | accountant.py:207-255 | the month is over on day 30 or later; no routine spending is an error; otherwise the projection describes the routine median's estimate over the remaining days, every daily step of the trajectory included |
| Forecast.MedianInRange | accountant.py:243 | the median of routine spending lies between 5.000 and 100.000 |
| Forecast.WorkedExample | accountant.py:248-291 | a median of 11.000 gives an estimate of 13.000, and with 100.000 on day 25 the final 35.000 is a tight month needing a 65.000 top-up |

## Left out

- PDF reading (`pdfplumber`) is left out: a document is given as its sequence of
  page texts, `None` where no text could be extracted.
- Directory listing and the `.pdf` name filter are left out. Documents arrive
  as a sequence in the order the listing would give them.
- Date parsing in `prediksi_harian` is left out; the day of the month is an
  input between 1 and 31.
- Printing is left out, including the progress animation with its sleeps, the
  ASCII bar chart and the matplotlib chart. They compute nothing the forecast
  returns.
- The interactive loop and its balance parsing are left out: they are I/O
  around the forecast.
- `train_model` is left out: the forecast never uses the fitted model.
- The mean and the standard deviation in `prediksi_harian` are left out: they
  are only printed.
- The unused parameters `percentile_batas` and `frekuensi_min` are left out:
  they have no effect.
- Floating-point rounding is left out: amounts are exact reals, so `1.15 * m`,
  the quantile interpolation and `saldo / sisa / 1000` are computed exactly.
  Exact products hit half-thousand ties that floats often miss. For a median of
  50.000, `50000 * 1.15` is 57.500 exactly, which the model rounds to 58.000; in
  floats it is 57499.99999999999, and the program's estimate is 57.000.
- Nominal.ParseDecimal: models `float()` only for decimal literals (ASCII digits
  and at most one point, with the surrounding blanks `float()` ignores). Tokens from the pattern
  cannot hold exponents, `inf`, `nan`, underscores or non-ASCII digits, but
  `Normalise` on arbitrary text reads those forms as unparsable.
- Warnings and error prints for empty documents or directories are left out; the
  empty results they accompany are modelled.
