# Issuer-history scraper: the pure core in Dafny

`MSE_Homework/pythonProject1/main.py` collects ten years of trading history for
every issuer listed on the Macedonian Stock Exchange site. Most of the script
is HTTP, HTML parsing and CSV writing. This project models the three pieces of
sequential logic inside it and proves their properties:

- **the issuer-code filter** of `collect_issuers` (module `Issuers`): dropdown
  option values become issuer codes;
- **the date-window chunking** of `collect_issuer_data` (module `Windows`): the
  span `[end - 3650, end]` is cut into windows of at most 366 days;
- **the row-to-record extraction** of `collect_issuer_data` (module `Records`):
  the rows of a result table become ten-field trading records.

Module `History` composes the last two. It mirrors the loop of
`collect_issuer_data` as a method. The site's answer for each window is a
parameter `respond`. The method is proved to request exactly the windows of
`Windows`, whatever `respond` returns, and to return the concatenation of each
window's records in window order.

Supporting modules:

- `Text` models Python's `str.strip()`. It uses the exact whitespace set of
  `str.isspace`. It also gives an independent description of stripping: a slice
  with only whitespace outside it and none at its own ends.
- `Selection` gives the increasing list of positions a comprehension
  `[f(x) for x in xs if p(x)]` keeps. Both filters are described element by
  element through it.

Dates are integer day numbers. Both ends of the span carry the same time of day
(`datetime.now()`), and only whole-day `timedelta`s are added. So comparing the
datetimes is the same as comparing day numbers.

Two points where a natural reading of the script differs from what it does;
the model follows the code:

- A natural reading trims each option value before testing it. Lines 29-30
  of `main.py` run the presence, emptiness and digit tests on the **raw**
  attribute and strip afterwards. A whitespace-only option value is therefore
  kept and yields the empty code `""` (`Issuers.SpaceOnlyValueYieldsEmptyCode`).
  So "every code is non-empty" does not hold. "Every code is digit-free" does
  hold (`Issuers.CollectIssuers`).
- The output file is named `all_issuers_data_last_10_years.csv` (main.py:122),
  but the span is `365 * 10` days (main.py:47), which ignores leap days. The
  model uses 3650 days.

Four definitions carry no contract of their own. Their meaning is stated by
the lemmas in the table:

- `Windows.Windows` is the loop of main.py:53-54, 73, 94. Its windows are
  described by `Windows.WindowsBounds`, `Windows.WindowsClosedForm`,
  `Windows.WindowsCount`, `Windows.WindowsDisjoint`, `Windows.WindowsCover`
  and `Windows.LastWindowEnd`.
- `Text.Strip` is `str.strip()` as used at main.py:29 and 82-90. It is
  described by `Text.StripSpec` and `Text.StripUnique`.
- `Issuers.Keep` is the condition of main.py:29-30. `Issuers.CollectIssuersSpec`
  spells it out option by option.
- `History.WindowRecords` is the answer handling of main.py:70-76: no
  `resultsTable` gives no records. `History.LoopStep` and
  `History.CollectIssuerData` state its effect on the collected data.

## Model

| member | source | states |
|---|---|---|
| Text.TrimStartSpec | MSE_Homework/pythonProject1/main.py:29 | stripping the front leaves a suffix of the input that does not start with whitespace, and everything removed is whitespace |
| Text.TrimEndSpec | MSE_Homework/pythonProject1/main.py:29 | stripping the back leaves a prefix of the input that does not end with whitespace, and everything removed is whitespace |
| Text.StripSpec | MSE_Homework/pythonProject1/main.py:29 | `strip()` returns a slice of its input with only whitespace outside it and no whitespace at either of its ends |
| Text.StripUnique | MSE_Homework/pythonProject1/main.py:29 | that description determines the result: any such slice equals `strip()` of the input |
| Text.SpaceOnlyStripsToEmpty | MSE_Homework/pythonProject1/main.py:29 | `strip()` gives `""` if and only if the input is all whitespace |
| Text.StripIdempotent | MSE_Homework/pythonProject1/main.py:82-90 | stripping an already stripped text changes nothing |
| Text.StripHasDigit | MSE_Homework/pythonProject1/main.py:29-30 | the stripped value contains a digit if and only if the raw value does |
| Issuers.CollectIssuers | MSE_Homework/pythonProject1/main.py:29-30 | there are no more codes than options, and no code contains a digit |
| Issuers.CollectIssuersSpec | MSE_Homework/pythonProject1/main.py:29-30 | the kept options are exactly those whose raw value is present, non-empty and digit-free, listed in dropdown order; the k-th code is the stripped raw value of the k-th kept option, and there are as many codes as kept options |
| Issuers.CollectIssuersAppend | MSE_Homework/pythonProject1/main.py:29-30 | the codes of two consecutive runs of options are the codes of the first run followed by those of the second |
| Issuers.SpaceOnlyValueYieldsEmptyCode | MSE_Homework/pythonProject1/main.py:29-30 | a non-empty whitespace-only value passes the tests on the raw value and is emitted as `""` |
| Issuers.StripTrimmed | MSE_Homework/pythonProject1/main.py:29 | a value without whitespace at its ends is emitted unchanged |
| Issuers.DropdownExample | MSE_Homework/pythonProject1/main.py:29-30 | options `KMB`, `ALK`, `123X`, absent, empty give exactly `["KMB", "ALK"]` |
| Windows.WindowsBounds | MSE_Homework/pythonProject1/main.py:53-54 | windows exist iff start < end; each starts in `[start, end)`, ends in `[its start, end]`, spans at most 365 days after its start, and starts the day after the previous one ends; the first starts at `start`, the last ends no earlier than `end - 1` |
| Windows.WindowsClosedForm | MSE_Homework/pythonProject1/main.py:53-54 | the k-th window is `[start + 366k, min(start + 366k + 365, end)]` |
| Windows.WindowsCount | MSE_Homework/pythonProject1/main.py:53-54 | for start < end there are `ceil((end - start) / 366)` windows |
| Windows.WindowsDisjoint | MSE_Homework/pythonProject1/main.py:53-94 | an earlier window ends strictly before a later one starts, so starts strictly increase and no day is requested twice |
| Windows.WindowsCover | MSE_Homework/pythonProject1/main.py:53-94 | every day in `[start, end)` lies in exactly one window, the one numbered `(day - start) / 366` |
| Windows.LastWindowEnd | MSE_Homework/pythonProject1/main.py:53-54 | the last window ends on `end` if and only if `end - start` is not a multiple of 366; otherwise it ends on `end - 1` |
| Windows.TenYearSpan | MSE_Homework/pythonProject1/main.py:46-54 | for the 3650-day span there are exactly ten back-to-back windows, the first starting at `end - 3650` and the last ending on `end` |
| Records.ToRecord | MSE_Homework/pythonProject1/main.py:80-91 | a record has ten columns in output order: the issuer code first, then in column i a slice of cell i - 1 with only whitespace removed around it and none left at its ends |
| Records.ToRecordUnique | MSE_Homework/pythonProject1/main.py:80-91 | that description determines the record: any record with the issuer code first and a stripped form of cell i - 1 in column i is the one built from the row |
| Records.ToRecordIgnoresExtraCells | MSE_Homework/pythonProject1/main.py:79-91 | cells after index 8 do not affect the record |
| Records.RowRecords | MSE_Homework/pythonProject1/main.py:77-92 | rows give at most one record each, and every record carries the issuer code |
| Records.TableRecords | MSE_Homework/pythonProject1/main.py:76-92 | a non-empty result has fewer records than the table has rows (the header never counts), and every record carries the issuer code |
| Records.RowRecordsSpec | MSE_Homework/pythonProject1/main.py:77-92 | the k-th record comes from the k-th row with at least nine cells, and there are exactly as many records as such rows |
| Records.TableRecordsSpec | MSE_Homework/pythonProject1/main.py:76-92 | the header row never yields a record; row i ≥ 1 yields exactly one record iff it has at least nine cells; records follow row order |
| Records.RowRecordsAppend | MSE_Homework/pythonProject1/main.py:77-92 | the records of two consecutive runs of rows are the records of the first followed by those of the second |
| Records.AllDataRows | MSE_Homework/pythonProject1/main.py:77-92 | when every row the loop reads (the header already dropped) has at least nine cells, row k gives record k and nothing is lost |
| Records.HeaderPlusDataRows | MSE_Homework/pythonProject1/main.py:76-92 | a table of a header row followed by n rows of at least nine cells yields exactly n records, the k-th from the k-th row after the header |
| History.IssuerRecords | MSE_Homework/pythonProject1/main.py:92 | every record collected for an issuer carries that issuer's code |
| History.IssuerRecordsAppend | MSE_Homework/pythonProject1/main.py:92 | the records of two consecutive runs of windows are the records of the first run followed by those of the second |
| History.ReadTable | MSE_Homework/pythonProject1/main.py:76-92 | the row loop computes exactly the table's records: header skipped, short rows dropped |
| History.LoopStep | MSE_Homework/pythonProject1/main.py:71-94 | one pass of the loop appends the current window to the requested windows and its records to the data, whether or not the table is present |
| History.CollectIssuerData | MSE_Homework/pythonProject1/main.py:45-96 | the loop ends; it requests exactly the windows of the 3650-day span, ten of them with the last ending on `end`, whatever the site answers; it returns the concatenation of each window's records in window order, all tagged with the issuer code |

## Left out

- HTTP requests and `raise_for_status` (main.py:18-19, 65-66) are network I/O. The site's answer is the parameter `respond`. A failing request, which aborts one issuer in the source, is not modelled.
- BeautifulSoup parsing (main.py:21-23, 68-70, 76-78) is a library outside this model. The option values, the presence of `resultsTable` and the cell texts are inputs.
- The missing-dropdown branch and the `RequestException` handler of `collect_issuers` (main.py:25-27, 40-42) both return `[]`. They depend on parsing and the network. Only the filter over the option values is modelled.
- Writing `issuers.csv` (main.py:32-35) and the pandas output file (main.py:121-122) is file I/O through foreign libraries.
- `main` (main.py:99-128) is left out. It runs `collect_issuer_data` in a thread pool and merges results in completion order, which is nondeterministic. Its "no issuers, exit" check has no logic beyond I/O.
- `datetime.now()`, calendar conversion and `strftime('%d.%m.%Y')` (main.py:46, 55-56) are clock and calendar work. Dates are day numbers, and `end` is a parameter.
- Timing and `print` output (main.py:37, 72, 100, 117-128) affect no behaviour.
- Text.IsDigit: ASCII digits only. Python's `\d` on `str` also matches other Unicode decimal digits, so the model keeps some values that the source drops.
