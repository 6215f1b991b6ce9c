# HDFC statement parser: the transaction extraction engine in Dafny

This project models the browser-side engine of the HDFC credit-card statement
parser (`app.js`). The engine takes the text lines of a statement PDF. It reads
each line with one of two layout grammars and turns it into at most one
transaction row. The rows then become a quoted CSV file and a preview paged
twenty rows at a time.

The modules follow the program:

- `Text`, `Digits`: JavaScript's whitespace and `trim()`, and decimal digit strings.
- `Amount`: `cleanAmount`. Amounts are exact hundredths in an `Option`, where `None` is `null`. `String(number)` and `toFixed` are modelled exactly on those hundredths.
- `Patterns`: the regular expressions `DATE_TIME_RE`, `DATE_RE`, `TIME_RE`, `FOREX_RE`, the old layout's date expression and its trailing-amount expression.
  - Each is a structural scanner.
  - Each scanner is proved equal to a ghost predicate that states the pattern as a language.
- `Transactions`: the row record and the forex step shared by both layouts.
- `NewLayout`: `parseNewLine`.
- `OldLayout`: `parseOldLine`.
- `Statement`: the `parseWithFormat` line loop (a method) and the old-then-new dispatch in `runParse`.
- `Csv`: `rowsToCsv` (a method) and `getColumnsForFormat`, with a decoder the encoder is proved against.
- `Preview`: the pagination arithmetic, plus a `CsvPreview` class holding `currentPage` that `Render`, `Prev`, `Next` and `Load` update.
- `PdfLines`: the item-to-line loop of `extractLinesFromPdf`.
- `Files`: the upload filter and the download name.
- `Tile`: `runParse`, which ties them together.

Two behaviours of the code worth knowing:

- A forex rate is written only when both amounts are non-zero: `app.js:71` and `app.js:119` test both for truthiness.
- A run of commas with no digits is a match for `cleanAmount`. It reads as 0 (`Number("")`), not as a missing amount.

## Model

| member | source | states |
|---|---|---|
| Amount.CleanAmount | app.js:18-23 | `None` exactly when the text holds no digit and no comma (the empty text included); otherwise the value of the amount captured at the first digit or comma, commas deleted |
| Amount.TokenLenLongest | app.js:20 | the captured amount text is the longest prefix in the language `[\d,]+(?:\.\d{1,2})?` |
| Amount.TokenEndUnique | app.js:100 | when the amount is followed by anything but a digit, comma or point, backtracking can end the amount group only at the greedy length |
| Amount.CleanAmountOfRun | app.js:18-23 | the first run of digits and commas, with its commas deleted, gives the whole part and the point and digits after it the hundredths, whatever text precedes the run |
| Amount.CleanAmountGroupedExample | app.js:18-23 | `"1,23,456.50 Cr"` (Indian digit grouping) reads as 123456.50 |
| Amount.CleanAmountCommaOnly | app.js:20-22 | a run made only of commas counts as a whole part of 0, since deleting the commas leaves `Number("")` |
| Amount.ShowDecimal | app.js:146 | `String(v / 100)` for `v` hundredths: a numeral without leading zeros, then a point and one or two digits not ending in 0, or nothing when there are no hundredths |
| Digits.NumeralUnique | app.js:146 | a numeral without leading zeros is the only numeral of its value: writing its value gives it back |
| Amount.ShownDecimalUnique | app.js:146 | a text of the form `String` writes is the only such text of its value: `cleanAmount` reads it, and writing that value gives the text back |
| Amount.ShowDecimalRoundTrip | app.js:146 | the text a cell shows for an amount is read back by `cleanAmount` as that amount, and is one whole amount token |
| Amount.RoundedQuotientNearest | app.js:72-74 | the rounded quotient `n` used for the rate is the integer nearest to `a * 10^d / f`, the larger on a tie: `n f - f/2 <= a 10^d < n f + f/2` |
| Amount.ToFixed | app.js:74 | `toFixed(d)`: a numeral without leading zeros (a single `0` below one), a point and exactly `d` digits, all the digits together reading the rounded quotient |
| Amount.ToFixedTwoDigitsReadsBack | app.js:120 | a two-digit rate read by `cleanAmount` gives the rounded quotient in hundredths |
| Text.Trim | app.js:38 | `trim()`: the result is a slice with only whitespace cut off either side; empty exactly for blank text |
| Text.TrimPadded | app.js:67 | trimming text padded with whitespace gives back the trimmed text |
| Text.LastIndexOf | app.js:45 | `lastIndexOf`: an occurrence with no occurrence after it, or none at all |
| Patterns.FirstDate | app.js:35 | `DATE_RE`: `None` exactly when there is no date; otherwise the leftmost date |
| Patterns.FirstTime | app.js:39 | `TIME_RE`: `None` exactly when there is no time; otherwise the leftmost time |
| Patterns.DateTimePrefix | app.js:31 | a match of `DATE_TIME_RE` has a date, a time and a single-line rest, with the date at the first non-blank character |
| Patterns.DateTimePrefixSound | app.js:12 | the captures and the whitespace the match skipped reassemble into the line |
| Patterns.DateTimePrefixComplete | app.js:12 | every line of the shape `ws date ws \| ws time ws rest` matches with exactly those captures |
| Patterns.OldDatePrefixSound | app.js:94 | the old layout's date captures and the skipped whitespace (at least one character) reassemble into the line |
| Patterns.OldDatePrefixComplete | app.js:94 | every line of the shape `ws date ws rest` matches with exactly those captures |
| Patterns.ForexAtIsRegex | app.js:15 | a scanner match of `FOREX_RE` is a split in the pattern's language |
| Patterns.RegexIsForexAt | app.js:15 | every split in the pattern's language is the scanner's match, with the same groups |
| Patterns.ForexAtUnique | app.js:15 | `FOREX_RE` matches at one index at most |
| Patterns.ForexStart | app.js:63 | `None` exactly when `FOREX_RE` matches nowhere; otherwise the index of the match |
| Patterns.ForexStartOf | app.js:63-66 | text ending in a word-bounded code, whitespace, an amount and whitespace is matched there, with the code and the amount as its groups |
| Patterns.RegexIsCrTail | app.js:100 | a tail `\s*(Cr)?\s*$` in the language is matched, and its `Cr` group takes part exactly when the tail is not blank |
| Patterns.OldAmountAtIsRegex | app.js:100 | a scanner match of the trailing-amount expression is a split in its language |
| Patterns.RegexIsOldAmountAt | app.js:100 | every split in that language is the scanner's match, with the amount group the scanner computes |
| Patterns.FindTrailingAmount | app.js:100-104 | `None` exactly when `OldAmountStart` finds no match; otherwise the match at the index it finds (the leftmost), its amount group up to the end of the amount token, and whether `Cr` took part (the text after the amount is not all whitespace) |
| Transactions.ForexRate | app.js:70-76 | `""` unless both amounts are present and non-zero; otherwise the `toFixed(digits)` text of the rounded quotient: a numeral without leading zeros, a point and exactly `digits` digits |
| Transactions.ApplyForex | app.js:59-68 | without a `FOREX_RE` match: INR, no forex amount, no rate, description unchanged; with one: a three-capital code, a forex amount, a shorter trimmed description and the rate of the two amounts |
| Transactions.ApplyForexOf | app.js:63-67 | a description ending in ` CODE amount` gives back the text before it, the code and the amount |
| Transactions.ApplyForexText | app.js:59-76 | the forex step gives back the description, code and forex amount a printed description was made from |
| NewLayout.SplitMarker | app.js:43-56 | credit exactly when `"+ C"` occurs; with neither marker the whole text is the description, the amount text is empty and the type is debit |
| NewLayout.SplitMarkerCredit | app.js:45-49 | text printed as `description + C amount` splits into that description and amount as a credit |
| NewLayout.SplitMarkerDebit | app.js:51-55 | text printed as `description C amount` (no `+` in it) splits into that description and amount as a debit |
| NewLayout.FirstTimeText | app.js:39-40 | `""` exactly when no time occurs anywhere in the line; otherwise the leftmost time in the line, even one before the date |
| NewLayout.FallbackStamp | app.js:34-41 | no stamp exactly when the line has no date; otherwise the first date, the leftmost time anywhere in the line or `""`, and as rest the trimmed text after the first date |
| NewLayout.NewStamp | app.js:31-41 | no stamp exactly when the line has no date; otherwise its date is the first date of the line and its time a time or `""` |
| NewLayout.NewRow | app.js:43-89 | the row keeps the date and time; it is a credit exactly when the rest holds `"+ C"`; its amount is `cleanAmount` of the amount text the marker split leaves; its description, currency, forex amount and four-digit rate are what the forex step makes of the description the split leaves; without a forex amount it is INR with no rate |
| NewLayout.ParseNewLine | app.js:25-90 | no row exactly for a blank line or a line without a date; otherwise one row dated with the first date of the line |
| NewLayout.ParseNewLineRoundTrip | app.js:25-90 | a row printed in the new layout parses back to that row, its rate computed to four digits |
| OldLayout.OldForex | app.js:107-123 | forex columns only under the international header, with a two-digit rate |
| OldLayout.OldRow | app.js:100-136 | no row exactly when the text does not end in an amount; otherwise dated, no time, credit exactly when `Cr` follows the amount; its amount is `cleanAmount` of the matched amount group; its description, currency, forex amount and rate are what the section's forex step makes of the trimmed text before the match; no forex columns outside the international section |
| OldLayout.ParseOldLine | app.js:92-137 | no row without a leading date and whitespace; otherwise the row of that date and the trimmed rest |
| OldLayout.TrailingAmountOf | app.js:100-104 | in a printed body the match is the printed amount, and `Cr` takes part exactly for a credit |
| OldLayout.ParseOldLineRoundTrip | app.js:92-137 | a row printed in the old layout parses back to that row under the section it was printed in |
| Statement.HeaderSection | app.js:200-207 | a line naming "Domestic Transactions" (any case) opens the domestic section, even when it also names the international one; otherwise one naming "International Transactions" opens that one; other lines open none |
| Statement.SectionStep | app.js:198-207 | the section changes only at a header line, and then to that header's section |
| Statement.SectionRows | app.js:208-209 | a header line, or a line before any header, contributes no row; any line contributes at most one |
| Statement.ParseWithFormat | app.js:191-213 | the line loop returns the rows of the format's specification function: `parseNewLine` on every line, or the old loop with the section threaded through |
| Statement.ParseSectionsAppend | app.js:197-211 | reading `a + b` reads `a`, then `b` in the section `a` leaves, so rows keep the order of their lines |
| Statement.ParseOldNoHeader | app.js:208 | a statement without a header line has no old-layout rows |
| Statement.ParseOldSkipsPreamble | app.js:208 | lines before the first header do not change what the rest yields |
| Statement.ParseOldLength | app.js:199-210 | at most one row per line |
| Statement.ParseOldHeader | app.js:200-207 | a header line yields no row and opens its section for the lines after it |
| Statement.ParseOldBody | app.js:209 | a non-header line inside a section yields exactly what `parseOldLine` gives |
| Statement.ParseNewAppend | app.js:193-196 | the new loop reads `a + b` as `a` followed by `b` |
| Statement.ParseNewEmpty | app.js:193-196 | at most one row per line, and no rows exactly when `parseNewLine` accepts no line |
| Statement.NewStatementRoundTrip | app.js:193-196 | a statement printed in the new layout reads back as its rows, in order |
| Statement.OldStatementRoundTrip | app.js:197-211 | a header followed by rows printed in the old layout reads back as those rows, in order |
| Statement.Dispatch | app.js:363-374 | the old layout's rows when there are any; else the new layout's when there are any; no transactions exactly when both find none |
| Csv.ColumnsFor | app.js:157-161 | eight columns with `time` second for the new format, the other seven in the same order for any other |
| Csv.AmountCell | app.js:146 | an empty cell exactly for a missing amount; otherwise `String`'s text of the amount, of the shown-decimal form, which `cleanAmount` reads back as the amount |
| Csv.CellText | app.js:152 | each cell is the row's field for its column; the amount cells are the amount-cell texts of the row's two amounts (`""` when missing); the type cell is `Cr` or `Dr` |
| Csv.DoubleQuotesChar | app.js:147 | `replace(/"/g, '""')` on one character: a quote becomes two quotes, any other character stays |
| Csv.DoubleQuotesAppend | app.js:147 | the doubling works piece by piece: doubling `a + b` is doubling `a`, then `b`, so with `DoubleQuotesChar` every quote of a cell is doubled and nothing else changes |
| Csv.EscapeTwoQuotes | app.js:145-148 | a cell with two quotes in it is written between quotes with both of them doubled |
| Csv.ReadEscaped | app.js:147 | reading an escaped cell gives the cell back and stops at its closing quote |
| Csv.Table | app.js:150-153 | a header record of the column names, then one record per row with one cell per column |
| Csv.RowsToCsv | app.js:139-155 | the loop returns the header line and one line per row, joined by newlines |
| Csv.SplitJoin | app.js:154 | splitting at newlines undoes the join when no line holds one |
| Csv.DecodeRecordLine | app.js:150-152 | a record line decodes back to its cells |
| Csv.CsvRoundTrip | app.js:139-155 | when no field holds a newline, the file has one line per row plus the header, and decodes back to the column names and every row's cells |
| PdfLines.Flush | app.js:183-185 | what is left of a page becomes at most one line, non-empty and trimmed |
| PdfLines.AssembleLines | app.js:168-186 | the page and item loops return the lines of the specification function, page after page |
| PdfLines.PageLinesShape | app.js:173-185 | every line is trimmed; a page gives one line per line end, plus one only when text follows the last line end |
| PdfLines.NoEOLOneLine | app.js:173-185 | a page without line ends is one line: its strings, spaced and trimmed, unless that is blank |
| Preview.TotalPages | app.js:309 | the fewest pages of twenty that hold the rows, and at least one |
| Preview.ClampPage | app.js:310 | the page is clamped into `[1, totalPages]` and kept when already in range |
| Preview.PageWindow | app.js:311-312 | a page starts at `(page - 1) * 20`, holds at most twenty rows, and exactly twenty when not the last |
| Preview.PageRows | app.js:313 | a page shows between one and twenty rows, or none when there are no rows |
| Preview.PagesCoverRows | app.js:309-313 | the pages read in order are all the rows, each once |
| Preview.FortyFiveRows | app.js:309-313 | 45 rows make three pages; page 3 and a request for page 4 both show rows 41 to 45 |
| Preview.PrevPage | app.js:333 | one page back, not below the first |
| Preview.NextPage | app.js:343 | one page on, not past the page count |
| Preview.CsvPreview.constructor | app.js:263-265 | a new tile has nothing parsed and is on page one |
| Preview.CsvPreview.Load | app.js:388-390 | a parse that found rows keeps them and their parser and resets the page to one |
| Preview.CsvPreview.Render | app.js:300-345 | with nothing parsed, the note and no change; otherwise the page is clamped, its rows and range are shown, and Previous and Next are disabled on the first and last page |
| Preview.CsvPreview.Prev | app.js:332-335 | one page back, then a render; the first page stays the first; the render shows the new page's rows, the page count, the row count, and disables Previous exactly on page one and Next exactly on the last page |
| Preview.CsvPreview.Next | app.js:342-345 | one page on within the last render's page count, then a render; the last page stays the last; the render shows the new page's rows, the page count, the row count, and disables Previous exactly on page one and Next exactly on the last page |
| Preview.NextTwiceOnFortyFive | app.js:331-345 | after loading 45 rows, Next twice reaches page 3, which shows rows 41 to 45 with Next disabled |
| Files.CsvFileName | app.js:385 | a final `.pdf` in any case becomes `.csv`; any other name gets `.csv` added |
| Files.CsvNameOfPdf | app.js:385 | `base` plus a `.pdf` extension in any case downloads as `base.csv` |
| Files.CsvNameIsNotPdf | app.js:385 | the download name never ends in `.pdf` |
| Files.AcceptFiles | app.js:432-440 | the loop returns the names of the entries that are present and end in `.pdf` in any case, in order |
| Files.AcceptedNamesExactly | app.js:435 | a name is taken up exactly when a present entry has it and it ends in `.pdf` |
| Files.AcceptedNamesLength | app.js:432-440 | at most one tile per entry |
| Tile.ChosenRows | app.js:363-369 | the old layout's rows when there are any, else the new layout's |
| Tile.NewStatementChosen | app.js:363-369 | a statement printed in the new layout, with no line reading as a header, is read with the new parser and gives back its rows |
| Tile.OldStatementChosen | app.js:363-369 | a header followed by rows printed in the old layout is read with the old parser and gives back its rows |
| Tile.RunParse | app.js:354-393 | no transactions exactly when neither layout finds rows, leaving the preview alone; otherwise the CSV of the chosen rows, the `.csv` name, the row count and parser, and the preview loaded on page one; the page count known to the Next button is left as the last render set it |

## Left out

- PDF loading with pdf.js (`getDocument`, `getPage`, `getTextContent`, the password prompt and `PasswordException`): a foreign asynchronous library. The text items of every page are a parameter of `PdfLines.AssembleLines` and `Tile.RunParse`.
- DOM and UI wiring: the table markup of `renderCsvPreview`, tile elements, event listeners, Blobs, object URLs and status messages. `Preview.CsvPreview.Render` returns what a render shows as a value.
- Shared-file import, service-worker registration and `service-worker.js`: network fetches, timers and the Cache API.
- `async`/`await`: the line loop never suspends, so it is modelled as synchronous.
- Floating point: `Number(...)`, the division of the two amounts and `Number.isFinite` are not modelled. Amounts are exact hundredths.
- Amount.CleanAmount: does not model the rounding of `Number`, because amounts are exact hundredths. From 2^46 rupees (about 7·10^13 rupees, 7·10^15 hundredths) on, neighbouring doubles are more than 0.01 apart, so the engine can show a different amount: the double nearest to 80000000000000.01 is 80000000000000.015625, which `String` writes as 80000000000000.02.
- Transactions.ForexRate: the rate is the exactly rounded quotient (half up) with `digits` decimals, while `toFixed` rounds the double nearest to the quotient. The two can differ on a tie, because the exact decimal is not representable as a double.
- Amount.ShowDecimal: `String(number)` is modelled for plain decimals only. The exponent form JavaScript uses for very large or very small numbers is not modelled.
- `toFixed(0)` never occurs in the engine (digits are 4 or 2), so `Amount.ToFixed` requires at least one digit.
- Case-insensitive matching (`toLowerCase`, the `i` flag) is modelled as ASCII case folding. Under the `i` flag without `u` (`app.js:100`, `app.js:200-204`, `app.js:385`) a non-ASCII character never folds to an ASCII one. `toLowerCase` (`app.js:435`) can turn a non-ASCII character into ASCII letters (U+212A KELVIN SIGN into `k`, U+0130 into `i` and a combining dot), but no non-ASCII character lower-cases into `.`, `p`, `d` or `f`, so the `.pdf` test is the same.
- NewLayout.ParseNewLineRoundTrip: only for rows a statement prints unambiguously. The description must be non-empty and on one line, and a debit's description may not contain `+`, which could read as a credit marker.
- Statement.OldStatementRoundTrip: only for printed rows that do not themselves read as a section header.
