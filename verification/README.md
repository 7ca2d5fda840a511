# Meal-tracker ledger core, modelled in Dafny

The meal-tracker dashboard reads a published spreadsheet as CSV text. It parses
the text into a header row and data rows. It then reads the month's figures out
of fixed cells of the sheet: the member rows, total meals, total bazar (shared
grocery spend), the meal rate, and each member's deposit and due. This project
models that pure core of `app.js` and proves what it computes:

- `csv.dfy` (module `Csv`): `parseCSVLine` is a left-to-right scanner with one
  "inside quotes" flag (`Scanner`, `Step`, `Run`), and `ScanLine` is the same
  loop as app.js runs it. `parseCSV` (`ParseCsv`, `ReadSheet`) trims the text,
  splits it on `\n`, parses line 0 as the headers and keeps every later line
  that has a non-blank cell.
- `ledger.dfy` (module `Ledger`): the arithmetic of `updateStats` and
  `renderMemberDashboards`. The sheet layout is one block of named constants:
  member rows 0-5, column AG (32) for meals and the summary cells in rows 6, 7
  and 8, AH (33) for the maid bill, AI (34) for extras, and the deposit/due
  block at row 18 + i. Each member's bazar cost is their meals times the meal
  rate. Their total cost adds the maid bill and the extras.
- `selector.dfy` (module `Selector`): `findCurrentMonthSheet` picks the first
  sheet named with the month and the 2-digit year. Failing that, it picks the
  first sheet named with the month, and otherwise the last sheet.
- `text.dfy` (module `Text`): JavaScript's `trim` (the ECMA-262 whitespace
  set), `split` and `join` on one character, `includes`, and decimal
  rendering of whole numbers. `options.dfy` holds `Option`.

Numbers are `real`. The cell-to-number conversion `parseFloat` is not modelled:
it is a parameter `parse: string -> Option<real>` (`Ledger.NumberParser`), with
`None` standing for NaN. Under that reading the source's two coercions,
`!isNaN(parseFloat(x))` and `parseFloat(x) || 0`, are the same rule: a missing
row, a missing cell or text that is not a number reads as 0. The current date
is not modelled either: the month index (as `getMonth` counts) and the full
year are parameters of `Selector.FindCurrentMonthSheet`.

Three behaviours of the code are easy to miss:
- Empty or whitespace-only text gives the headers `[""]` and no data rows.
  `split` always yields at least one line, so the `lines.length === 0` branch
  of `parseCSV` can never run (`Csv.Lines`, `Csv.BlankText`).
- A sheet with fewer than six data rows gets that many member cards, because
  of `slice(0, 6)`. An empty sheet gets none
  (`Ledger.EmptySheet`).
- The guards `length >= 7`, `>= 8` and `>= 9` are exactly "row 6, 7 or 8
  exists".

The month-only fallback takes the FIRST sheet named with the month, and the
catalog in app.js lists the oldest sheets first. So in a month whose year has
no sheet yet (October 2026, say), the dashboard opens the oldest October.
`Selector.SelectSheet` states this rule as written.

## Model

| member | source | states |
|---|---|---|
| Text.Trim | app.js:234-241 | `trim` leaves neither end as whitespace, keeps only characters of its input, returns "" exactly for blank input, and leaves trimmed text unchanged (hence it is idempotent) |
| Text.TrimStripsEnds | app.js:234-241 | the result of `trim` is the infix of its input that only whitespace precedes and follows: exactly the leading and trailing whitespace is removed |
| Text.Split | app.js:199 | `split('\n')` yields at least one part, no part holds the separator, there is one part more than there are separators, and joining the parts gives the input back |
| Text.SplitJoin | app.js:199 | `split` undoes `join` for separator-free parts, so `split` and `join` are mutually inverse |
| Text.ContainsAt | app.js:89 | `includes` holds exactly when the substring occurs at some offset |
| Text.DecimalString | app.js:380 | the decimal rendering of a number has digits only, no leading zero, and reads back as the number |
| Csv.ParseLine | app.js:223-243 | a line gives at least one cell; every cell is trimmed and holds no quote |
| Csv.ParseLineCellCount | app.js:228-241 | a line has one cell more than it has commas preceded by an even number of quotes |
| Csv.ScanLine | app.js:223-243 | the imperative scanner loop (trim on each push, final push of the open cell) computes exactly `ParseLine` |
| Csv.RunQuoteParity | app.js:231-232 | after any text the quote flag equals the parity of the quotes read |
| Csv.RunCellCount | app.js:233-235 | the scanner closes one cell per comma read outside quotes |
| Csv.RawCellsJoin | app.js:228-241 | the untrimmed cells joined with commas are the line with its quotes removed: nothing else is lost or added |
| Csv.ParseLineConcat | app.js:228-241 | after a span with balanced quotes, a comma splits the line into two independently parsed halves |
| Csv.QuotedCell | app.js:231-238 | a quoted span, commas included, is one cell with the quotes dropped |
| Csv.UnclosedQuote | app.js:231-241 | an unbalanced quote raises no error; it absorbs the rest of the line into one cell |
| Csv.UnquotedLine | app.js:228-241 | on a line without quotes the cells are the comma-split fields, trimmed |
| Csv.QuotedThenPlain | app.js:228-241 | a quoted span, a comma and a plain cell read as exactly those two cells |
| Csv.QuotedMiddleCell | app.js:228-241 | `a,"b,c",d`-shaped lines read as the three cells a, b,c and d |
| Csv.TrailingComma | app.js:233-241 | a trailing comma yields a trailing empty cell (`a,b,` gives a, b, "") |
| Csv.EmptyLine | app.js:241 | the empty line is one empty cell |
| Csv.Lines | app.js:199 | the trimmed text splits into at least one newline-free line, and joining the lines gives the trimmed text back |
| Csv.KeepRows | app.js:210-215 | the kept rows all have a non-blank cell and are rows of the input |
| Csv.KeepRowsConcat | app.js:210-215 | keeping rows distributes over concatenation: the kept rows are the rows with content, in their original order |
| Csv.KeepRowsComplete | app.js:212-214 | no row with a non-blank cell is dropped |
| Csv.ParseCsv | app.js:198-218 | the headers are the parse of line 0 and never empty; every data row has content and is, unpadded and untruncated, the parse of some later line |
| Csv.ParseCsvKeepsContent | app.js:209-215 | every later line whose parse has a non-blank cell is among the data rows |
| Csv.BlankText | app.js:199-206 | empty or whitespace-only text gives headers `[""]` and no data rows |
| Csv.ReadSheet | app.js:198-218 | the imperative `parseCSV` computes exactly `ParseCsv` |
| Csv.ReadRows | app.js:208-215 | the row loop of `parseCSV` keeps exactly the parsed later lines that have content, in order |
| Ledger.NumberAtCases | app.js:384-401 | a number cell reads as 0 when its row is missing, when the row is too short, or when the text is not a number, and otherwise as the parsed value |
| Ledger.CountNamedIsSetSize | app.js:308-309 | counting named rows one by one counts the set of indices of named rows |
| Ledger.MemberCount | app.js:307-309 | the member count is the number of named rows among the first min(6, rows), so it is at most 6 |
| Ledger.Summarize | app.js:304-340 | total meals, total bazar and meal rate are cells AG of rows 6, 7 and 8, each 0 when its row is missing; the member count is the set of named rows among the first six |
| Ledger.Members | app.js:353-357 | there are exactly min(6, rows) cards, one per row among the first six |
| Ledger.MemberCard | app.js:359-407 | each card's name (or `Member i+1`), meals, maid bill, extras, deposit and due come from their fixed cells; the bazar cost is meals times the meal rate of the cell the summary reads; the total cost is bazar + maid + extra |
| Ledger.MissingLedgerRow | app.js:392-401 | a member whose deposit/due row is missing has deposit 0 and due 0 |
| Ledger.EmptySheet | app.js:304-407 | an empty sheet gives an all-zero summary and no member cards |
| Ledger.AliceCard | app.js:379-404 | a member with 20 meals at rate 55.5 and deposit/due cells of 1200 and 300 gets bazar cost 1110, deposit 1200 and due 300 |
| Ledger.ReadsOnlyLayoutRows | app.js:304-407 | the extraction reads only rows 0-8 and 18-23: sheets of equal length that agree there give the same summary and cards |
| Ledger.AllocationAtRate | app.js:403-404 | cards priced at one rate have total bazar cost equal to the rate times their total meals |
| Ledger.CostSplit | app.js:406-407 | the cards' total costs sum to their bazar costs plus maid bills plus extras |
| Ledger.CardsAtMealRate | app.js:403-407 | every card is priced at the meal rate of cell AG10 and its total cost is the sum of its parts |
| Ledger.PricedCards | app.js:403-407 | for cards priced at one rate whose totals add up their parts, the summed bazar cost is rate × summed meals and the summed total cost is the sum of the summed parts |
| Ledger.BazarAllocation | app.js:359-407 | the cards share out the meal rate times their meals; if the total-meals cell equals the members' meals, they share out exactly rate × total meals; total costs decompose by summand |
| Ledger.ParsedRowsHaveTrimmedNames | app.js:206-215 | every data row the CSV parser keeps has a trimmed name cell |
| Ledger.NamedRowShowsName | app.js:380 | with a trimmed name cell, a row is counted as a member exactly when its card shows that cell instead of a placeholder |
| Ledger.CountedMembersAreNamedCards | app.js:307-380 | on parsed rows the member count equals the number of cards that show the sheet's own name |
| Ledger.Placeholder | app.js:380 | the placeholder name `Member i+1` is never empty |
| Selector.YearSuffix | app.js:85 | `slice(-2)` of the year gives decimal digit characters only: its last two digits (value year mod 100) for years of two or more digits, and the single digit otherwise |
| Selector.LastTwoDigits | app.js:85 | the last two characters of a decimal of two or more digits have the value n mod 100 |
| Selector.FirstWhere | app.js:88-94 | `find` returns the first index whose sheet satisfies the test, or nothing when none does |
| Selector.SelectSheet | app.js:87-98 | the result is the first sheet named with month and year, else the first named with the month, else the last sheet; it is nothing only for an empty catalog and always a catalog entry |
| Selector.FindCurrentMonthSheet | app.js:80-99 | for a month index below 12, the pick is a catalog entry (nothing only for an empty catalog), and it misses the month name only when no sheet has it |

## Left out

- `fetchData`, the URL and cache-busting parameter, `fetch`, the `isLoading` busy flag and the `setInterval` polling (app.js:74, 156-193): network I/O and timer-driven concurrency.
- All DOM rendering: `renderMonthButtons`, the button toggling in `selectSheet`, `renderTable`, `renderTableBody`, `showLoading`, `showError`, `updateLastUpdated`, and the HTML strings of `renderMemberDashboards` (gradients, initials). They are presentation only.
- `escapeHtml` (app.js:514-519): it delegates to the browser's DOM serialisation.
- `animateNumber` (app.js:455-476): animation-frame timing and floating-point easing.
- `debounce` (app.js:524-534): timer scheduling only.
- `filterTable` (app.js:286-299): its meaning rests on Unicode `toLowerCase`, which is not modelled.
- Display formatting (`Math.round`, `toFixed(2)`).
- `parseFloat` itself is not modelled. That covers prefix parsing such as `"12abc"`, NaN, Infinity and IEEE-754 rounding. It is the `parse` parameter, and the arithmetic is exact over `real`. So the one place the two coercions differ in JavaScript, `-0` under `|| 0`, is not visible.
- `new Date()`, `getMonth` and `getFullYear`: the month index and the year are parameters. Negative years are not modelled (`year` is a `nat`).
- Strings are sequences of Unicode scalar values, not UTF-16 code units. This changes nothing for the quote, comma, newline and whitespace characters the core inspects.
