# PortfolioIQ rule engine in Dafny

PortfolioIQ reads a grant Financial Summary worksheet and applies one rule.
First it finds the header row, whose column 1 holds `"Grant"`. Then, for every
later row whose classification (column 3) contains `CAPITAL` in any case, it
reads the budget (column 4) and the actual (column 5) with a lenient number
parser. It looks upward for the nearest `F&A` annotation in columns 1–7 and
takes its percentage, falling back to 60%. It writes
`(budget - actual) * rate` into column 10 and returns how many rows it wrote.

The project has five modules:

- `Wrappers` (`wrappers.dfy`) holds `Option` (Python's `None` versus a value)
  and `Result`.
- `Strings` (`strings.dfy`) holds ASCII digits and whitespace, decimal digit
  strings, substring search and upper case.
- `Cells` (`cells.dfy`) holds the cell value `Empty | Text | Num`, Python
  truthiness, the capital-row classifier and `to_number`. `to_number` deletes
  commas and minus signs and then parses the rest as a plain decimal.
- `RatePattern` (`rate_pattern.dfy`) holds `parse_fa_rate`: the leftmost match
  of `(\d{1,3})\s*%`, with the group read as a fraction.
- `PortfolioIQ` (`portfolio_iq.dfy`) holds the engine.
  - Specification functions cover the header row, the rate window and first
    annotation (`find_fa_rate`), the effective rate (`or DEFAULT_FA_RATE`), the
    impact of a row, and the outcome of a whole run (`RunOutcome`).
  - Lemmas about them cover the bounds, the first-match rule, the frame and
    idempotence.
  - The class `Worksheet` holds the cells (a map from `(row, column)` to a
    cell; a missing key is an empty cell) and `maxRow`. `FindHeader` and
    `FindFaRate` are read-only loops. `UpdateRows` is the row loop. `UpdateRow`
    (one pass of that loop) and `Run` write the cells in place. Each method is
    proved against the specification functions.
- `Scenarios` (`scenarios.dfy`) holds whole runs on small worksheets.

The spreadsheet file, the command line and the console are outside the
model. The worksheet is given as a grid and a `maxRow`.

Behaviour worth noting:

- The rate search stops at the first `F&A` cell even when that cell holds no
  percentage (PortfolioIQ.py:57-58). It then returns `None`, so a rate further
  up is never used (`PortfolioIQ.FirstAnnotationDecides`).
- The stop `max(1, row - 120)` of the descending `range` is exclusive
  (PortfolioIQ.py:54). Row 1 is never examined, and neither is a row 120 or
  more rows above the target (`PortfolioIQ.AnnotationAt120Missed`).
- A found rate of 0% is replaced by the default, because of the `or` at
  PortfolioIQ.py:81 (`PortfolioIQ.EffectiveRate`).
- A leading minus sign is deleted before parsing, so budgets and actuals are
  read as magnitudes (PortfolioIQ.py:41, `Cells.ToNumberDropsSign`).
- Running the engine again on its own output leaves the worksheet identical
  (`PortfolioIQ.RunIdempotent`), because no rule reads column 10.

## Model

| member | source | states |
|---|---|---|
| `Cells.Truthy` | PortfolioIQ.py:41 | Python truthiness as tested by `if x` (and by `not text` and `v and` at lines 46 and 57): exactly `None`, `""` and `0` are false |
| `Cells.StripSeparators` | PortfolioIQ.py:41 | `.replace(",", "").replace("-", "")`: the text never gets longer (what it removes and keeps is stated by the lemmas below) |
| `Cells.ParseUnsigned` | PortfolioIQ.py:41 | the unsigned part of `float()`: a parsed value is never negative (which texts it accepts is stated by `Cells.ParseUnsignedForm`) |
| `Cells.ParseUnsignedForm` | PortfolioIQ.py:41-43 | the unsigned part of `float()` succeeds iff the text is only digits and points, with at most one point and at least one digit; any other text raises `ValueError` |
| `Cells.ParseFloatForm` | PortfolioIQ.py:41-43 | `float()` succeeds iff the text, trimmed of whitespace and of one leading sign, is in that decimal form |
| `Cells.ToNumberRejects` | PortfolioIQ.py:41-43 | every text whose stripped, trimmed and unsigned form is not decimal notation reads as 0.0 (the `except` branch) |
| `Cells.ToNumberStrayChar` | PortfolioIQ.py:41-43 | a text holding any character other than digits, points, commas, signs and whitespace (`$`, `%`, letters, brackets) reads as 0.0 |
| `Cells.StripSeparatorsKeepsAt` | PortfolioIQ.py:41 | a character other than a comma or a minus survives `.replace` |
| `Cells.TrimKeeps` | PortfolioIQ.py:41 | a character other than whitespace survives the trimming `float()` does |
| `Cells.ParseUnsignedBareFraction` | PortfolioIQ.py:41 | `".5"` reads as 0.5 |
| `Cells.ParseUnsignedTrailingPoint` | PortfolioIQ.py:41 | `"5."` reads as 5.0 |
| `Cells.ParseUnsignedLeadingZeros` | PortfolioIQ.py:41 | `"007.5"` reads as 7.5 |
| `Cells.ParseUnsignedPoints` | PortfolioIQ.py:41-43 | `"."` and `"1.2.3"` are rejected |
| `Cells.ToNumber` | PortfolioIQ.py:39-43 | the result is never negative, and it is 0.0 for every falsy cell (`None`, `""`, `0`) |
| `Cells.ToNumberIgnoresSeparators` | PortfolioIQ.py:41 | a text and the same text with every comma and minus deleted give the same number |
| `Cells.ToNumberDropsSign` | PortfolioIQ.py:41 | a leading minus sign does not change the result |
| `Cells.ToNumberDropsComma` | PortfolioIQ.py:41 | a comma anywhere in the text does not change the result |
| `Cells.ToNumberSameStrip` | PortfolioIQ.py:41-43 | two texts that are equal once commas and minus signs are deleted give the same number |
| `Cells.ToNumberShowNat` | PortfolioIQ.py:39-43 | round trip: the decimal text of a whole number, with or without a minus sign, reads back as that number |
| `Cells.ToNumberDecimal` | PortfolioIQ.py:39-43 | round trip: whole digits, a point and fraction digits read back as whole part plus fraction |
| `Cells.ToNumberSignedThousands` | PortfolioIQ.py:41 | `"-1,234.50"` gives 1234.5 |
| `Cells.ToNumberWholeAndCents` | PortfolioIQ.py:41 | `"1234.50"` gives 1234.5 |
| `Cells.ToNumberParenthesised` | PortfolioIQ.py:41-43 | `"(500)"` fails to parse and gives 0.0 |
| `Cells.StripSeparatorsRemoves` | PortfolioIQ.py:41 | after `.replace(",", "").replace("-", "")` no comma or minus is left |
| `Cells.StripSeparatorsKeeps` | PortfolioIQ.py:41 | every other character is kept as often as it occurred |
| `Cells.StripSeparatorsIdempotent` | PortfolioIQ.py:41 | deleting separators twice deletes nothing more |
| `Cells.StripSeparatorsAppend` | PortfolioIQ.py:41 | deleting separators distributes over concatenation |
| `Cells.StripSeparatorsNone` | PortfolioIQ.py:41 | a text without comma or minus is unchanged |
| `Cells.ParseFloat` | PortfolioIQ.py:41 | `float()` on plain decimal text: surrounding whitespace is ignored and one sign is allowed; a negative result needs a minus sign in the text, so the stripped text never reads as negative |
| `Cells.TrimStartSpec` | PortfolioIQ.py:41 | `float()` ignores exactly the leading whitespace |
| `Cells.TrimEndSpec` | PortfolioIQ.py:41 | `float()` ignores exactly the trailing whitespace |
| `Cells.ParseDigits` | PortfolioIQ.py:41 | a string of digits parses as its value |
| `Cells.IsCapital` | PortfolioIQ.py:77-78 | `"CAPITAL" in str(v).upper()`: only a text of at least seven characters can qualify; `str(None)` and a number never do |
| `Cells.IsFaAnnotation` | PortfolioIQ.py:57 | `v and "F&A" in str(v)`: only a non-empty text of at least three characters can be an annotation |
| `Cells.IsCapitalIgnoresCase` | PortfolioIQ.py:77-78 | a row qualifies iff `CAPITAL` occurs in its column-3 text in some mix of cases; a text and its upper case qualify alike |
| `Cells.IsCapitalAt` | PortfolioIQ.py:77-78 | a text holding a case variant of `CAPITAL` at some position qualifies |
| `Cells.IsCapitalExamples` | PortfolioIQ.py:77-78 | `"capital equipment"` and `"Capital-Outlay"` qualify; an empty cell (`"NONE"`) and a number never do |
| `RatePattern.PatternAt` | PortfolioIQ.py:48 | the meaning of `(\d{1,3})\s*%` at one position: one to three digits, then any whitespace, then `%` inside the text |
| `RatePattern.GroupAt` | PortfolioIQ.py:48 | the group length of a match of `(\d{1,3})\s*%` at one position: between 1 and 3, with the `%` still inside the text |
| `RatePattern.FirstMatch` | PortfolioIQ.py:48 | the `re.search` scan: a found match starts at or after the start position, has a group of 1 to 3 digits and ends inside the text |
| `RatePattern.GroupValue` | PortfolioIQ.py:49-50 | `float(m.group(1)) / 100` of a group of at most three digits lies in [0, 9.99] |
| `RatePattern.GroupAtSpec` | PortfolioIQ.py:48 | at a position the pattern matches exactly when the recogniser says so, with a uniquely determined group length |
| `RatePattern.PatternDetermined` | PortfolioIQ.py:48 | a match takes the whole digit run and the whole whitespace run at its position |
| `RatePattern.FirstMatchSpec` | PortfolioIQ.py:48 | what the search finds is a match at or after where it started |
| `RatePattern.FirstMatchNone` | PortfolioIQ.py:48 | the search fails iff no match starts at or after its start |
| `RatePattern.FirstMatchLeftmost` | PortfolioIQ.py:48 | the search returns the leftmost match |
| `RatePattern.ParseFaRate` | PortfolioIQ.py:45-51 | a found rate lies in [0, 9.99] and comes from a text cell |
| `RatePattern.ParseFaRateNone` | PortfolioIQ.py:45-51 | `None` iff the pattern matches nowhere in the text |
| `RatePattern.ParseFaRateLeftmost` | PortfolioIQ.py:48-50 | otherwise the rate is the group of the leftmost match divided by 100 |
| `RatePattern.ParseFaRateNeedsPercent` | PortfolioIQ.py:48-51 | a text without `%` yields no rate |
| `RatePattern.ParseFaRateAfterLabel` | PortfolioIQ.py:48-50 | a digit-free label, a number below 1000, optional whitespace and `%` give that number over 100 |
| `RatePattern.ParseFaRateFifty` | PortfolioIQ.py:45-51 | `"F&A 50%"` is an annotation and gives 0.5 |
| `RatePattern.ParseFaRatePending` | PortfolioIQ.py:48-51 | `"F&A TBD"` is an annotation but gives `None` |
| `RatePattern.ParseFaRateLongRun` | PortfolioIQ.py:48-50 | `"1234%"` gives 2.34: the group holds at most three digits |
| `RatePattern.ParseFaRateAbsent` | PortfolioIQ.py:46-51 | no percentage, an empty cell or `""` give `None` |
| `PortfolioIQ.HeaderFrom` | PortfolioIQ.py:66-69 | the first row from `r` up to 49 whose column 1 is exactly `"Grant"`, or none when there is no such row |
| `PortfolioIQ.HeaderRow` | PortfolioIQ.py:65-71 | the header is the first of rows 1..49 with column 1 equal to `"Grant"`; `None` iff there is none |
| `PortfolioIQ.HeaderRowFrame` | PortfolioIQ.py:66-67 | only column 1 of rows 1..49 decides the header |
| `PortfolioIQ.WindowLow` | PortfolioIQ.py:54 | the lowest row examined: one above the exclusive stop `max(1, row - 120)`, so never row 1 and never 120 or more rows up |
| `PortfolioIQ.InWindow` | PortfolioIQ.py:54-55 | the cells `find_fa_rate` may examine: rows `WindowLow(row)` to `row - 1`, columns 1 to 7 (`range(1, 8)`) |
| `PortfolioIQ.ScannedBefore` | PortfolioIQ.py:54-55 | the scan order: a nearer (higher-numbered) row first, then the lower column within a row |
| `PortfolioIQ.ScanColumns` | PortfolioIQ.py:55-58 | the inner loop over columns c..7: a column it returns lies in c..7 and holds an annotation |
| `PortfolioIQ.ScanRows` | PortfolioIQ.py:54-58 | the outer loop from row r down to lo: a cell it returns lies in those rows and columns 1..7 and holds an annotation |
| `PortfolioIQ.FirstAnnotation` | PortfolioIQ.py:54-58 | the cell `find_fa_rate` stops at lies in the window rows row-1 down to max(1, row-120)+1, columns 1..7, and holds an annotation |
| `PortfolioIQ.ScanColumnsSpec` | PortfolioIQ.py:55-57 | the column scan finds the leftmost annotation of a row in columns c..7, or none iff there is none |
| `PortfolioIQ.ScanRowsSpec` | PortfolioIQ.py:54-58 | the row scan finds the first annotation in descending-row, ascending-column order, or none iff there is none |
| `PortfolioIQ.FaRate` | PortfolioIQ.py:53-59 | a rate found by `find_fa_rate` lies in [0, 9.99] |
| `PortfolioIQ.FirstAnnotationFound` | PortfolioIQ.py:54-58 | the annotation used lies in rows row-1 down to max(1, row-120)+1, columns 1..7, and no cell earlier in scan order is one |
| `PortfolioIQ.FirstAnnotationNone` | PortfolioIQ.py:54-59 | no annotation is used iff the window holds none |
| `PortfolioIQ.FirstAnnotationIsFirst` | PortfolioIQ.py:54-58 | an annotation in the window with none before it in scan order is the one used |
| `PortfolioIQ.FaRateFrame` | PortfolioIQ.py:54-57 | only cells in the window decide the rate |
| `PortfolioIQ.AnnotationAt119Found` | PortfolioIQ.py:54 | an annotation 119 rows above the target is found |
| `PortfolioIQ.AnnotationAt120Missed` | PortfolioIQ.py:54 | an annotation 120 rows above, or in row 1, is never found |
| `PortfolioIQ.FirstAnnotationDecides` | PortfolioIQ.py:57-58 | the nearest `F&A` cell decides even without a percentage: a 50% further up is not used |
| `PortfolioIQ.EffectiveRate` | PortfolioIQ.py:81 | the found rate when it is present and non-zero, `DEFAULT_FA_RATE` (0.60, line 24) otherwise; always in (0, 9.99] |
| `PortfolioIQ.ImpactOf` | PortfolioIQ.py:82 | `(budget - actual) * rate`: with a positive rate it is positive iff budget exceeds actual, and zero iff they are equal |
| `PortfolioIQ.Impact` | PortfolioIQ.py:79-82 | a row's impact is positive iff its budget reads larger than its actual, and zero iff they read the same, since the effective rate is always positive |
| `PortfolioIQ.RuleIgnoresResultColumn` | PortfolioIQ.py:77-83 | a row's classification and impact depend on no cell of column 10 |
| `PortfolioIQ.CapitalRows` | PortfolioIQ.py:76-78 | the rows counted in a range lie inside that range; an empty range counts none |
| `PortfolioIQ.Writes` | PortfolioIQ.py:76-83 | the cells a run writes over rows lo..hi-1 are all in column 10 and in that range |
| `PortfolioIQ.RunOutcome` | PortfolioIQ.py:64-86 | `run_portfolioiq` fails iff there is no header; a successful run adds cells only in column 10 |
| `PortfolioIQ.AtWrites` | PortfolioIQ.py:76-85 | after the writes for a range of rows, column 10 of each capital row holds its impact and every other cell is as before |
| `PortfolioIQ.CapitalRowsStep` | PortfolioIQ.py:76-78 | one more row adds itself to the counted rows exactly when it is a capital row |
| `PortfolioIQ.RuleSeesOriginal` | PortfolioIQ.py:77-83 | part way through the run every row reads as in the original grid, so processing order does not matter |
| `PortfolioIQ.CountIsWrites` | PortfolioIQ.py:76-86 | the count equals the number of cells written |
| `PortfolioIQ.RunFailsWithoutHeader` | PortfolioIQ.py:65-71 | the run fails iff no row in 1..49 has `"Grant"` in column 1 |
| `PortfolioIQ.RunWritesOnlyResultColumn` | PortfolioIQ.py:76-85 | after a run only column 10 of capital rows after the header changes, to the row's impact |
| `PortfolioIQ.WritesFrame` | PortfolioIQ.py:76-85 | grids that agree on every row's classification and impact get the same writes |
| `PortfolioIQ.WritesKeepRule` | PortfolioIQ.py:76-85 | the run's writes keep the header and every row's classification and impact |
| `PortfolioIQ.RunIdempotent` | PortfolioIQ.py:64-86 | running on the output again gives the same count and the identical grid |
| `PortfolioIQ.Worksheet.constructor` | PortfolioIQ.py:73 | a worksheet holds the given cells and a fixed `max_row` |
| `PortfolioIQ.Worksheet.Get` | PortfolioIQ.py:56 | `ws.cell(r, c).value`: the stored value, and empty for a cell never set |
| `PortfolioIQ.Worksheet.Set` | PortfolioIQ.py:83 | `ws.cell(r, c).value = v` changes that cell alone |
| `PortfolioIQ.Worksheet.FindFaRate` | PortfolioIQ.py:53-59 | the nested loop with early return yields `find_fa_rate`'s specification |
| `PortfolioIQ.Worksheet.FindHeader` | PortfolioIQ.py:65-69 | the loop with `break` yields the first header row |
| `PortfolioIQ.Worksheet.UpdateRow` | PortfolioIQ.py:77-84 | one row of the loop: a capital row gets its impact and adds one to the count |
| `PortfolioIQ.Worksheet.UpdateRows` | PortfolioIQ.py:73-85 | the row loop leaves the grid with the run's writes and returns the number of capital rows |
| `PortfolioIQ.Worksheet.Run` | PortfolioIQ.py:64-86 | without a header the call fails and the grid is unchanged; otherwise it returns the count and leaves the grid `RunOutcome` gives |
| `Scenarios.RunOneCapitalRow` | PortfolioIQ.py:76-86 | a header followed by one capital row gives count 1 and a single write |
| `Scenarios.SheetHeader` | PortfolioIQ.py:65-69 | the sample sheet's header is row 5 |
| `Scenarios.SheetRow6` | PortfolioIQ.py:77-80 | row 6 is a capital line with budget 10000 and actual 4000 |
| `Scenarios.RateLabel` | PortfolioIQ.py:45-51 | `"F&A Rate 50%"` is an annotation and gives 0.5 |
| `Scenarios.AnnotatedSheetFirst` | PortfolioIQ.py:54-58 | the annotation in row 3, above the header, is the first in row 6's window |
| `Scenarios.AnnotatedSheetRate` | PortfolioIQ.py:53-59 | the rate for row 6 is 0.5 |
| `Scenarios.SheetRate` | PortfolioIQ.py:53-59 | without an annotation no rate is found |
| `Scenarios.RunWithAnnotation` | PortfolioIQ.py:64-86 | column 10 of row 6 becomes (10000 - 4000) * 0.50 = 3000, and the count is 1 |
| `Scenarios.RunWithDefaultRate` | PortfolioIQ.py:79-83 | without an annotation it becomes (10000 - 4000) * 0.60 = 3600 |
| `Scenarios.RunWithoutHeader` | PortfolioIQ.py:65-71 | `"Grant"` in row 50 or `"GRANT"` is no header, so the run fails |

## Left out

- `main` and `startup_banner` (PortfolioIQ.py:30-34, 91-116) are not modelled. They handle the command line, console output, and loading and saving the workbook with openpyxl.
- The output file name (PortfolioIQ.py:107-108) is not modelled. It depends on the wall clock.
- openpyxl worksheet internals are not modelled. That includes cells created on access and how `max_row` is computed. The worksheet is a map of cells with a `maxRow` fixed for the run.
- `Cells.ToNumber`: reads text only in plain decimal notation. It has an optional sign, digits, at most one point and surrounding ASCII whitespace. Python's `float()` also accepts exponents, `inf`, `nan` and underscores; these give 0.0 in the model. Arithmetic is on reals, not IEEE doubles. A number cell reads as its exact magnitude. The `str()` form of a float (such as `1e-05`, which loses its `-` and turns into `1e05`) is not modelled.
- `Cells.IsCapital` and `RatePattern.ParseFaRate`: upper case, `\d` and `\s` are ASCII only. Python's Unicode case mapping, Unicode digits and Unicode whitespace are not modelled.
- `Strings.IsSpace`: only the common ASCII whitespace (space, tab, line feed, vertical tab, form feed, carriage return). Python's `\s` and `float()` also treat the separators `\x1c` to `\x1f` as whitespace; the model treats them as ordinary characters, so a text padded with them reads as 0.0 here.
- Cell values other than empty, text and numbers (dates, booleans) are not modelled.
- `SUBAWARD_FIRST_CAP` (PortfolioIQ.py:25) is not modelled. The code never uses it.
- The risk flags and manager comments in the module docstring (PortfolioIQ.py:7-9) are not modelled. The code does not implement them.
- The `RuntimeError` raised at PortfolioIQ.py:71 is the `Failure(HeaderNotFound)` result of `Worksheet.Run`.
