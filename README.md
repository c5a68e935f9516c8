# Bank account screen: statement import and balance

This project models the logic of a single-page bank account screen, `script.js`,
and proves properties of that model. The screen keeps a list of transactions and a
balance. The user can add, edit and delete transactions, or import them from a bank
statement spreadsheet. The model covers:

- **the statement import** (`parseComplexExcelData`, `parseItalianDate`):
  - a header row is found by its text, and the column map is built from it;
  - the rows below the header are scanned: a row whose date cell holds a date
    opens a transaction group, and the rows below it extend that group's
    description;
  - the scan ends at the first summary row ("totale movimenti", "saldo al");
  - each group becomes a record with a signed amount, a normalised name and a day;
  - a record is dropped when a stored transaction already has its key (day, amount
    text, name).
- **the account** (`Account`): the balance is recomputed as the sum of the amounts
  after an add, a delete, a delete-all and an import. An edited amount moves the
  balance by the change. Three taps on the profile picture within 600 ms switch the
  edit mode.
- **the list filter** of the transaction screen.

The modules follow the program's layers:

- `Sequences`: facts about concatenation that the recursive definitions unfold through.
- `Wrappers`: `Option` and `Result`.
- `Text`: the JavaScript string operations the code relies on, with JavaScript's
  white-space set and ASCII case mapping.
- `Numbers`: `parseInt`, `parseFloat`, `String(number)` and `toFixed(2)` on exact
  decimals.
- `Dates`: the Italian date text, and the day number that `new Date(y, m, d)`
  stands for.
- `Ledger`: transactions, their total, and the filter.
- `Import`: the grid, the scan and the records.
- `Store`: the account as a class with mutable fields.

The scan loop is an imperative method, `Import.ScanRows`. It is proved equal to the
recursive reference function `Import.Scan`, and the properties of the scan are
proved about `Scan`. The account is a class whose methods state their whole new
state.

Points where the model follows the code as written:

- Dates:
  - The only date grammar is "day month-word year". There is no slash-delimited
    `D/M/Y` form, and periods are not stripped from the text.
  - Only the first three letters of the month word are looked up.
- Records:
  - There is no category column and no category inference. Every imported record
    has category `payment`.
  - The type is `ADDEBITO` for an amount below zero and `ACCREDITO` otherwise.
- Amounts:
  - `replace(',', '.')` replaces only the first comma. An imported cell
    `"1.234,56"` therefore reads as 1.234, not 1234.56 (`ThousandsSeparatorEndsParse`).
  - The amount editor first drops every character other than digits, commas and
    `-`, so the same text typed in an edit reads as 1234.56 (`EditReadsItalianFormat`).
  - An outcome below half a cent gives type `ADDEBITO` with an amount of zero:
    the type is decided before the amount is rounded.
- Deduplication:
  - The keys of the stored transactions are computed once, before the batch. Two
    equal rows of the same file are therefore both kept (`FreshKeepsAllNew`).
- Errors:
  - The "columns not found" error cannot happen. The header row test already found
    both column names in the row's joined text. Neither name contains a comma, so
    each lies inside one cell (`ColumnsErrorUnreachable`).

Values that the program takes from the environment are parameters of the model:

- the current day (`new Date()`) is `today`, a day number;
- the time stamp of `Date.now()` is `now` or `stamp`;
- the ids of imported records (`'imp_' + Date.now() + Math.random()`) are `idOf(k)`
  for the record of the k-th group;
- the answers to `confirm` and `prompt` are `confirmed` and `typed`;
- the saved data that `localStorage` returns is the constructor's `saved` argument.

## Model

| member | source | states |
|---|---|---|
| Text.LowerAt | script.js:251 | lower-casing maps each character on its own and keeps the length |
| Text.LowerAppend | script.js:294 | lower-casing distributes over concatenation |
| Text.ContainsIff | script.js:268 | `includes` holds exactly when the needle occurs at some position |
| Text.ContainsLeft | script.js:268 | an occurrence in the left part is an occurrence in the whole |
| Text.ContainsRight | script.js:268 | an occurrence in the right part is an occurrence in the whole |
| Text.ContainsAcrossSeparator | script.js:267-280 | a needle without the separator that occurs in `a + sep + b` occurs in `a` or in `b` |
| Text.ContainsInJoin | script.js:267-280 | a comma-free needle occurs in the comma-joined row text exactly when it occurs in one of its cells |
| Text.LowerAll | script.js:275 | the lower-cased header names, one per cell, in order |
| Text.LowerJoin | script.js:268 | lower-casing the joined row equals joining the lower-cased cells |
| Text.Split | script.js:251 | `split(' ')` gives at least one piece, the pieces contain no space, and they join back to the text |
| Text.SplitNone | script.js:251 | text without the separator splits into itself alone |
| Text.SplitAt | script.js:251 | the text before the first separator is the first piece and the rest is split further |
| Text.TrimStartFacts | script.js:304 | `trimStart` removes exactly the leading white space: the result is a suffix that starts with non-space, or is empty when the text is all white space |
| Text.TrimEndFacts | script.js:304 | `trimEnd` removes exactly the trailing white space |
| Text.Trim | script.js:304 | `trim()`: the leading and then the trailing white space removed; its properties are stated by `TrimStartFacts`, `TrimEndFacts`, `TrimStartAppend` and `TrimStartSpaces` |
| Text.NonSpaceAppend | script.js:329 | the non-space characters of a concatenation are those of its parts |
| Text.Without | script.js:304 | `replace(/"/g, '')` leaves no quote, adds no character, and leaves quote-free text unchanged |
| Text.WithoutAppend | script.js:304 | the quotes are removed piece by piece: the result for a concatenation is the results for its parts, one after the other |
| Text.WithoutOne | script.js:304 | a single character is removed exactly when it is a quote, so every other character stays, in order |
| Text.AmountChars | script.js:426 | `replace(/[^0-9,-]+/g, "")` keeps only digits, commas and minus signs, adds no character, and leaves such text unchanged |
| Text.AmountCharsAppend | script.js:426 | the filter distributes over concatenation |
| Text.AmountCharsOne | script.js:426 | a single character is kept exactly when it is a digit, a comma or a minus sign, so kept characters stay in order and nothing is merged |
| Text.CollapseSpaces | script.js:329 | `replace(/\s+/g, ' ')` leaves only single ordinary spaces and keeps every other character in order |
| Text.TrimStartAppend | script.js:304 | `trimStart` of a text that ends in a non-space character removes only that text's leading white space, whatever follows |
| Text.TrimStartSpaces | script.js:304 | `trimStart` removes a run of white space up to the next non-space character |
| Text.CollapseRun | script.js:329 | a run of white space becomes one space |
| Text.CollapseAppend | script.js:329 | a text ending in a non-space character is collapsed on its own, apart from what follows |
| Text.CollapseWords | script.js:329 | two texts around a run of white space are collapsed on their own, and the run becomes exactly one space |
| Text.NormalizeNameIsNormal | script.js:329 | the imported name is trimmed, has only single spaces, and keeps every non-space character of the description |
| Text.CollapseNormal | script.js:329 | text that already has only single spaces is not changed by the collapse |
| Text.NormalizeNameIdempotent | script.js:329 | normalising a name twice gives the same name |
| Text.NormalizeWords | script.js:329 | two normalised names separated by any run of white space become the two names joined by a single space |
| Text.NormalizeName | script.js:329 | `replace(/\s+/g, ' ').trim()`, the imported name; its properties are stated by `NormalizeNameIsNormal`, `NormalizeNameIdempotent`, `CollapseWords` and `NormalizeWords` |
| Text.IndexOf | script.js:318 | the first index of the character, with no earlier occurrence |
| Text.ReplaceFirstAt | script.js:318 | `replace(',', '.')` changes the first comma only |
| Text.ReplaceFirstAbsent | script.js:318 | text without a comma is not changed |
| Text.ReplaceFirst | script.js:318 | `replace(',', '.')` with a string pattern, which replaces the first occurrence only; stated by `ReplaceFirstAt` and `ReplaceFirstAbsent` |
| Numbers.LeadingDigitsOf | script.js:257-258 | the digit run that a number starts with ends at the first non-digit |
| Numbers.ParseInt | script.js:257-258 | `parseInt` is NaN exactly when no digit follows the white space and the sign |
| Numbers.ParseIntNatText | script.js:257-258 | the digits of a number followed by a non-digit are read back as that number |
| Numbers.ParseIntDigits | script.js:257-258 | any run of digits after white space, leading zeros included (`"01"`), is read as its value up to the first non-digit |
| Numbers.ParseIntNegativeDigits | script.js:257-258 | the same run after a minus sign is read as its negated value |
| Numbers.ParseFloat | script.js:318-319 | `parseFloat` reads no more decimals than the text has (the values it reads are stated by `ParseNumberText` and `DecimalTextRoundTrip`) |
| Numbers.ParseNumberText | script.js:318-319 | a signed number in decimal notation is read back with its digits, sign and scale |
| Numbers.AmountFromText | script.js:318-319 | NaN reads as zero (`\|\| 0`) |
| Numbers.DecimalTextRoundTrip | script.js:318 | reading back `String(x)` gives `x` in its shortest form |
| Numbers.NumberCellAmount | script.js:318-319 | a number cell holding whole cents is read as exactly those cents |
| Numbers.RoundCents | script.js:338 | `toFixed(2)` rounds the magnitude to the nearest cent, a half cent away from zero, and keeps the sign |
| Numbers.RoundCentsExact | script.js:338 | an amount of whole cents is not changed by the rounding |
| Numbers.DigitsValueAppend | script.js:318 | digits written after others shift them by a power of ten |
| Numbers.ThousandsSeparatorEndsParse | script.js:318 | `"1.234,56"` is read as 1.234: the comma becomes a second point and the parse stops there |
| Numbers.DecimalCommaIsRead | script.js:318 | a number with a decimal comma, such as `"-50,25"`, is read as that number |
| Numbers.CleanItalianAmount | script.js:426 | the edit filter turns `"1.234,56 €"` into `"1234,56"` |
| Numbers.EditReadsItalianFormat | script.js:426 | an edited amount typed in the Italian format is read with its thousands and decimals |
| Dates.MonthOf | script.js:247-255 | the month table gives a month exactly for its twelve keys, and that key's month |
| Dates.MonthNamesRead | script.js:247-255 | every full Italian month name is read as its month |
| Dates.ParseItalianDate | script.js:245-264 | the result is a date exactly when the text is not empty, has at least three words, the second word's first three letters are a month key and the first and third words parse as integers; the date then has that month (0 to 11), that day and that year |
| Dates.ParseItalianDateText | script.js:251-261 | `"<day> <month word> <year>"`, in any letter case and followed by further words, is read as those numbers |
| Dates.DateDay | script.js:261 | a valid date lies within the time value range |
| Dates.DayNumber | script.js:261 | the day `new Date(year, month, day)` names: a two-digit year means 19xx, months past December carry into the year, days past the month's end into the following months; its calendar is stated by `YearLength`, `MonthsMakeYear`, `MonthRollover`, and the range check by `DateDay` |
| Dates.YearLength | script.js:261 | a leap year has 366 days and any other year 365 |
| Dates.MonthsMakeYear | script.js:261 | the twelve months add up to the year |
| Dates.MonthRollover | script.js:261 | the day after a month's last day is the first of the next month, December running into January of the next year |
| Ledger.TotalAppend | script.js:347 | the sum of two lists one after the other is the sum of their sums |
| Ledger.TotalRemove | script.js:181-182 | removing one entry takes exactly its amount off the sum |
| Ledger.TotalUpdate | script.js:427 | replacing one entry changes the sum by the change of its amount |
| Ledger.Total | script.js:347 | the `reduce` sum of the amounts; stated by `TotalAppend`, `TotalRemove`, `TotalUpdate` and used by every balance update of `Store.Account` |
| Ledger.FindId | script.js:179 | `findIndex` gives the first entry with the id, or none when no entry has it |
| Ledger.Filtered | script.js:365 | the list shows exactly the transactions that pass the filter, and no others |
| Ledger.FilteredAppend | script.js:365 | the filter keeps each shown transaction where it stands and as often as it occurs: the result for a concatenation is the results for its parts |
| Ledger.FilteredOne | script.js:365 | one transaction is shown exactly when it passes the filter |
| Ledger.EmptyQueryShowsAll | script.js:365 | an empty search on the `all` tab shows every transaction in order |
| Ledger.OtherTabShowsNothing | script.js:365 | a tab other than `all`, `incomes` and `expenses` shows nothing |
| Ledger.Shown | script.js:365 | the filter test: the lower-cased query occurs in the lower-cased name or in the amount text, and the tab admits the amount's sign; used by `Filtered`, `EmptyQueryShowsAll` and `OtherTabShowsNothing` |
| Import.CellTexts | script.js:268 | `String` of each cell, one per cell |
| Import.FindHeader | script.js:267-269 | the header is the first row whose text contains both column names, or none when no row does |
| Import.FindColumn | script.js:277-280 | a column is the first header cell containing its name, or none |
| Import.ColumnsOf | script.js:275-285 | the date and description columns of a column map lie in the header and contain their names |
| Import.ColumnsFound | script.js:275-285 | the map exists exactly when both the date and the description column are found; each column is the first lower-cased header cell containing its name, income and outcome being optional |
| Import.ColumnOfRowText | script.js:267-280 | a comma-free name found in the row text is found in one of its cells |
| Import.HeaderHasColumns | script.js:267-285 | a header row always yields a column map |
| Import.HeaderMissingIff | script.js:267-273 | the import fails with "header not found" exactly when no row is a header row |
| Import.ColumnsErrorUnreachable | script.js:283-285 | the import never fails with "columns not found" |
| Import.WordRun | script.js:298 | the run of `\w` characters a text starts with |
| Import.MatchesDateIff | script.js:298 | the matcher finds a date exactly when `/\d{1,2}\s\w+\s\d{4}/` occurs in the text |
| Import.IsBlankRow | script.js:292 | a row that is empty or has no truthy cell; skipped by `Scan` |
| Import.IsSummaryRow | script.js:294-295 | a row whose lower-cased joined text contains "totale movimenti" or "saldo al"; ends `Scan` (`ScanStops`) |
| Import.StartsTransaction | script.js:297-298 | a row whose date cell is truthy and a date object or text the date pattern matches (`MatchesDateIff`) |
| Import.DescriptionText | script.js:304-309 | `String(cell \|\| '').replace(/"/g, '').trim()` of the description cell; stated by `Without`, `WithoutAppend` and `Trim`'s lemmas |
| Import.Opened | script.js:300-307 | the group a dated row opens: its date cell, description text, and income and outcome cells (blank when the column is missing); see `ScanOpened` |
| Import.Scan | script.js:291-313 | the reference scan of the loop; stated by `ScanCount`, `ScanFirst`, `ScanOpened`, `ScanDescriptions`, `GroupsOfScan`, `ScanStops`, and implemented by `ScanRows` |
| Import.Continuations | script.js:308-311 | the texts the rows after an opening row add to its description; used by `ScanDescriptions` |
| Import.GroupTexts | script.js:300-311 | each group's full description, in order; related to the scan by `ScanDescriptions` and `GroupsOfScan` |
| Import.Continued | script.js:308-311 | a continuation row keeps whether a group is open and keeps its date, income and outcome cells; it appends `' ' + text` to the open description when the row's text is not empty, and nothing otherwise |
| Import.ScanCount | script.js:291-313 | the scan yields one group per dated row before the first summary row, plus the open group |
| Import.ScanFirst | script.js:300-313 | the open group comes out first, with its cells unchanged |
| Import.ScanOpened | script.js:291-313 | after the open group, the k-th group has the date, income and outcome cells of the k-th dated row |
| Import.ScanDescriptions | script.js:300-313 | each group's description is the text of its dated row followed by `' ' + text` for every non-empty text of the rows that continue it, in order; the open group likewise gets the continuations ahead |
| Import.GroupsOfScan | script.js:287-313 | the number of groups equals the number of dated rows before the stop; each group is opened by its row, in order, and its description is that row's text followed by its continuations |
| Import.RecordNames | script.js:300-336 | the k-th record's name is the normalised description of the k-th dated row and its continuation rows |
| Import.ScanStops | script.js:295 | nothing after a summary row takes part in the scan |
| Import.ScanAfterSummary | script.js:287-295 | rows appended after a summary row leave the scan unchanged |
| Import.RowsAfterSummaryIgnored | script.js:266-344 | rows after the first summary row below the header never change the import's result |
| Import.ScanRows | script.js:287-313 | the imperative loop yields exactly the groups of the reference scan |
| Import.Extend | script.js:308-311 | the method computes the continued group: whether a group is open and its cells are kept, and `' ' + text` is appended to the description when the row's text is not empty |
| Import.NegatedMagnitude | script.js:320 | `-Math.abs(x)` is never positive and keeps the magnitude |
| Import.CellAmount | script.js:318-319 | `parseFloat(String(x).replace(',', '.')) \|\| 0` of an amount cell; see `BlankCellIsZero`, `NumberCellAmount`, `ThousandsSeparatorEndsParse` |
| Import.Importo | script.js:320 | the income when it is not zero, otherwise minus the magnitude of the outcome, otherwise zero; stated by `ImportoCents` |
| Import.SignedAmount | script.js:318-320 | the signed amount of a group from its income and outcome cells; stated by `NumberCellsAmount` and `TinyOutcome` |
| Import.BlankCellIsZero | script.js:318-319 | a blank amount cell counts as zero |
| Import.ImportoCents | script.js:318-320 | the amount is the income when it is not zero, otherwise minus the magnitude of the outcome, otherwise zero |
| Import.NumberCellsAmount | script.js:318-320 | for cells in whole cents the stored amount follows the same rule, exactly |
| Import.TextDateDay | script.js:322-327 | a readable date text gives that date's day |
| Import.UnknownMonthIsToday | script.js:322-327 | a date text with an unknown month word gives today |
| Import.RecordDay | script.js:322-327 | the record's day: a date object's own day, the parsed date text, or `today`; stated by `TextDateDay` and `UnknownMonthIsToday` |
| Import.ToRecord | script.js:317-341 | the record has the given id; its name is the normalised description; both dates are the group's day; its amount is the signed amount rounded to cents; its type is `ADDEBITO` for an amount below zero and `ACCREDITO` otherwise; details and category are the import constants |
| Import.Records | script.js:317-342 | one record per group, in order, the k-th with id `idOf(k)` |
| Import.ToFixed2 | script.js:330 | the key's amount text has a minus sign exactly when the amount is below zero, so `-0.00` for an amount below zero that rounds to zero cents, and the magnitude is the rounded cents |
| Import.StoredKey | script.js:315 | the duplicate key of a stored transaction: day, amount text and name |
| Import.AsWrittenKey | script.js:330 | the key of a new record as the program writes it, from the unrounded amount; compared with `StoredKey` by `AsWrittenKeyAgrees` |
| Import.FixedOfStoredAmount | script.js:330-338 | the amount text of the unrounded and of the stored amount agree, except for an amount below zero that rounds to zero cents |
| Import.AsWrittenKeyAgrees | script.js:330-338 | the key as written equals the stored record's key except in that case |
| Import.TinyOutcome | script.js:318-320 | an outcome of 0,004 is below zero and rounds to zero cents |
| Import.AsWrittenKeyMissesStoredCopy | script.js:315-331 | with the key as written, an outcome of 0,004 is not recognised as its own stored copy |
| Import.Fresh | script.js:331-342 | the kept records are exactly those whose key is not stored |
| Import.FreshAppend | script.js:331-342 | each record is kept or dropped on its own key, in order and as often as it occurs: the result for a concatenation is the results for its parts |
| Import.FreshOne | script.js:331-342 | one record is kept exactly when its key is not stored |
| Import.FreshKeepsAllNew | script.js:315-331 | when no key is stored every record is kept, in order, including equal records of one batch |
| Import.FreshAllKnown | script.js:331 | when every key is stored nothing is kept |
| Import.HeaderScan | script.js:267-287 | the header search, the column map and the scan of the rows below the header, or the error; see `HeaderScanOf`, `HeaderMissingIff` |
| Import.ImportResult | script.js:266-344 | the import's result: the header error, or the scanned groups' records whose keys are not stored; stated by `HeaderMissingIff`, `ColumnsErrorUnreachable`, `ImportIdempotent`, `ImportKeepsNewRecords`, `RowsAfterSummaryIgnored`, and computed by `ParseComplexExcelData` |
| Import.FreshCoversKeys | script.js:315-331 | after the push every record's key is among the stored keys |
| Import.ImportIdempotent | script.js:315-342 | importing the same grid again after its records were added imports nothing |
| Import.ImportKeepsNewRecords | script.js:315-343 | with no stored key in common, the import is one record per group, in order |
| Import.FindHeaderPrefix | script.js:267-269 | rows appended after the header row do not move it |
| Import.HeaderScanAfterSummary | script.js:266-313 | rows after a summary row leave the header and the groups unchanged |
| Import.ParseComplexExcelData | script.js:266-344 | the method returns the reference result: the header error, or the new records of the scanned groups |
| Store.Recent | script.js:141-143 | the kept taps are exactly those less than 600 ms before now |
| Store.RecentAppend | script.js:141-143 | the recent taps keep their order and their number: the result for a concatenation is the results for its parts |
| Store.RecentOne | script.js:141-143 | one tap is kept exactly when it is less than 600 ms before now |
| Store.AfterTap | script.js:138-148 | the mode switches exactly when three or more taps are recent, and the log is then emptied; otherwise the log is the recent taps |
| Store.RecentAllRecent | script.js:141-143 | recent taps are all kept, in order |
| Store.ThreeQuickTapsToggle | script.js:138-148 | three taps within 600 ms of the first switch the edit mode and empty the log |
| Store.RecentAfterOldTaps | script.js:141-143 | taps 600 ms or more before now all leave the log |
| Store.LateTapStartsOver | script.js:138-148 | a tap long after every logged tap starts a new log and leaves the mode alone |
| Store.NewTransaction | script.js:159 | a new manual entry is a debit of 10,00 |
| Store.NewTransactionTotal | script.js:159-161 | a new manual entry lowers the sum by 10,00 |
| Store.Account.constructor | script.js:56-72 | the saved transactions and balance, or an empty account with balance zero; edit mode off |
| Store.Account.RecalculateBalance | script.js:346-348 | the balance becomes the sum of the amounts; nothing else changes |
| Store.Account.AddTransaction | script.js:158-164 | the new entry goes first, the rest keep their order, and the balance is the new sum, 10,00 lower |
| Store.Account.DeleteTransaction | script.js:176-187 | once confirmed, exactly the first entry with the id is removed, the rest keep their order, and the balance drops by its amount; otherwise nothing changes |
| Store.Account.DeleteAllTransactions | script.js:166-175 | the list is emptied and the balance is zero only after confirmation and the typed word `ELIMINA` |
| Store.Account.ImportFile | script.js:226-236 | the result is the reference import; new records go after the stored ones and the balance is the new sum; an empty or failed import changes nothing |
| Store.Account.EditAmount | script.js:424-429 | the entry gets the typed amount and the balance moves by new minus old, so its difference from the sum is kept |
| Store.Account.EditName | script.js:429 | the entry gets the typed name; sum and balance are unchanged |
| Store.Account.EditBalance | script.js:430-432 | the balance becomes the typed amount, whatever the sum |
| Store.Account.HandleProfileClick | script.js:138-148 | the tap log and the mode become those of `AfterTap` |
| Store.Account.ExitEditMode | script.js:149 | the edit mode is off and nothing else changes |

## Left out

- The page itself is not modelled: the DOM, rendering, toasts, popups, the sort and drag
  gestures, and visibility toggles. None of them changes the data.
- Reading the file: `FileReader` and the XLSX reader are not modelled. The import
  starts from the grid of cells they produce, with blank cells as `Empty`.
- Persistence: `saveData` and the JSON round trip through `localStorage` are not
  modelled. The constructor takes what was loaded. The re-creation of dates at load
  time is not modelled because dates are day numbers here.
- Sorting of the lists (`render`, `renderAllTransactions`) is not modelled. It changes
  only the order of display, not the stored list.
- Floating point is not modelled. Amounts are exact decimals and the balance is an
  exact sum (`real`). Rounding errors of JavaScript's binary arithmetic are not
  modelled.
- `parseFloat` is modelled without exponents and `Infinity`.
  Statement amounts do not use them.
- `String(number)` is modelled in positional notation only (`Numbers.DecimalText`).
  JavaScript writes numbers below 1e-6 and from 1e21 up in exponent form. Amounts read
  back from such a text have the same value, but the texts differ: a number cell's
  text in a description, header or summary row, and the search text of an amount
  (`Ledger.AmountSearchText`).
- `toLowerCase` lower-cases only ASCII letters, and `\s` is JavaScript's white-space
  set as listed in `Text.IsSpace`. Non-ASCII case mapping is not modelled.
- Dates: time zones and the time of day are not modelled. `toLocaleDateString`
  distinguishes only the day, so a date is a day number. A date cell from the reader
  carries its day and the text `String` gives it. An invalid date object in a cell is
  not modelled.
- A row that is not an array and a header cell that is not a string are not
  modelled: the grid is a sequence of rows of cells.
- `saveOnBlur` on the other editable text fields (`accountTitle`, `accountHolder`,
  the type) is not modelled: they only store the typed text. Only the amount, the
  name and the balance are modelled.
- Import.ParseComplexExcelData: the import drops a record whose stored key, from the
  amount rounded to cents, is already stored. The program's key uses the unrounded
  amount. The two differ only for an amount below zero that rounds to zero cents
  (`Import.AsWrittenKeyAgrees`). For such an amount the model can keep a record that
  the program drops, when a stored amount such as -0,001 also shows as `-0.00`. It
  can also drop a record that the program keeps, against a stored 0,00. The
  program's behaviour there is the finding below.
- Store.Account.ImportFile: it uses the import above, so it has the same difference
  from the program for amounts below zero that round to zero cents.
- A date cell's text `shown` stands for `String(date)` as JavaScript prints it, which
  starts with the weekday name. The model does not constrain that form, so it does not
  prove that a date cell placed in an amount column reads as zero.
- `Store.Account.constructor`: for saved data, it does not state that the saved
  balance equals the sum. The program does not check this either.

## Findings

| source | as written | input that shows it | evidently intended | confidence | as-written member | corrected member |
|---|---|---|---|---|---|---|
| script.js:315-331 | The key of a new record uses `importo.toFixed(2)` before the amount is rounded and stored. The stored key uses the stored amount. | An outcome cell of 0,004 with the income blank. The amount is -0.004, so the new key's text is `-0.00`. The stored record's amount is `parseFloat("-0.00")`, whose `toFixed(2)` is `0.00`. Importing the same file again adds the row a second time. | The key is that of the record as it will be stored, so importing a file twice adds its rows once. | not executed; follows from the `toFixed` sign rule for amounts below zero | Import.AsWrittenKeyMissesStoredCopy | Import.ImportIdempotent |

The import of the model uses the corrected key, `Import.StoredKey` of the record. The
key as written is `Import.AsWrittenKey`. `Import.AsWrittenKeyAgrees` shows that the
two keys differ only for an amount below zero that rounds to zero cents.
