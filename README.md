# Print-log parser, modelled in Dafny

`printlog_parser.py` turns a Windows print-server audit log into a
semicolon-separated report. The log is a CSV file. Its first line is skipped.
Every following row with exactly six fields whose sixth field (the event
message) contains a fixed extraction pattern becomes one record: the row's
timestamp (field 1), followed by the seven groups the pattern captures. Those
groups are DOCUMENT, USER, SOURCE_HOST, PRINTER, PORT, SIZE and PAGES. Rows
with another field count, and six-field rows without a match, are skipped. A
row with fewer than two fields ends the run with an error instead. The report
starts with a fixed header row.

This project models the part that makes decisions:

- `SearchPattern` (`pattern.dfy`) models `SEARCH_PATTERN`. `Occurrence` and
  `Text` spell out every text the pattern matches. `Matches(msg, groups)`
  holds when such a text occurs anywhere in `msg` with those groups.
  `IsSearch(search)` says that a search function behaves like `re.search`
  followed by `groups()`: each result it returns is a real match, and it
  returns nothing only when there is no match at all.
- `PrintlogParser` (`printlog.dfy`) models the loop of `get_data_from_printlog`.
  `GetDataFromPrintlog` is that loop. It takes the rows after the skipped first
  line and a search function, and returns the records and the `rows_total`
  counter. `Run` is the loop's specification, one row at a time. `Records`,
  `CountMatched`, `CountNoMatch` and `MatchedIndexes` describe the same
  result row by row, and `RunCharacterised` connects the two views.
- `PrintlogScenarios` (`scenarios.dfy`) works through concrete log lines.

Three details of the code matter here:

- The counter counts matched rows and rows with the wrong field count. Six-field
  rows whose message has no match are not counted, because the `continue` at
  line 42 skips the increment at line 46.
- A row with fewer than two fields is not skipped. `row[1]` is read at line 37,
  before the length check at line 38, so the run fails with an IndexError.
  `Outcome.RowTooShort(index)` models this. A blank CSV line is such a row.
- The pattern has seven capture groups.

## Model

| member | source | states |
|---|---|---|
| `SearchPattern.MatchedGroupsShape` | printlog_parser.py:10-13 | a match has exactly 7 groups; SIZE and PAGES are decimal digits only (possibly empty); DOCUMENT to PORT contain no line feed |
| `SearchPattern.SearchResultShape` | printlog_parser.py:39-43 | whatever a search for the pattern returns has 7 groups, and groups 6 and 7 are digits only |
| `SearchPattern.TextLength` | printlog_parser.py:10-13 | every text the pattern matches is at least 120 characters long |
| `SearchPattern.ShortMessageNeverMatches` | printlog_parser.py:10-13 | a message shorter than 120 characters never contains a match |
| `SearchPattern.MatchesWithSurroundingText` | printlog_parser.py:39 | the search is unanchored: a message that contains a match still matches, with the same groups, when text is added before or after it |
| `PrintlogParser.GetDataFromPrintlog` | printlog_parser.py:32-48 | the loop's result equals the specification `Run` of its rows, and a completed run starts with the header |
| `PrintlogParser.AbortIsFinal` | printlog_parser.py:36-37 | once a row has raised, later rows change nothing: the whole run ends with that error |
| `PrintlogParser.RunCharacterised` | printlog_parser.py:32-48 | the run fails exactly when some row has fewer than 2 fields, and then at the first such row; otherwise the result is the header followed by the records of the matched rows, and the counter plus the six-field no-match rows equals the number of rows |
| `PrintlogParser.ParsedSummary` | printlog_parser.py:34-46 | a completed result is the header plus one record per six-field row whose message matches; `rows_total` is the number of rows minus the six-field rows without a match |
| `PrintlogParser.RecordsFollowRowOrder` | printlog_parser.py:36-43 | record k+1 is built from the matched row at position `MatchedIndexes[k]`; these positions strictly increase; every matched row has one |
| `PrintlogParser.ParsedRecordShape` | printlog_parser.py:37-43 | with the extraction pattern, every record after the header has 8 fields: its row's field 1 verbatim, then groups the pattern really captures from that row's message; SIZE and PAGES are digits only |
| `PrintlogParser.WrongLengthRowOnlyCounted` | printlog_parser.py:38-46 | a row with at least 2 fields but not 6 adds no record, wherever it stands, but adds one to `rows_total` |
| `PrintlogParser.NoMatchRowIgnored` | printlog_parser.py:38-42 | a six-field row whose message has no match adds no record and leaves `rows_total` unchanged, wherever it stands |
| `PrintlogScenarios.SampleMessageMatches` | printlog_parser.py:10-13 | the sample event message contains the pattern, with the groups ReportA, jdoe, HOST1, PRN1, USB001, 204800, 3 |
| `PrintlogScenarios.SampleRowYieldsOneRecord` | printlog_parser.py:36-46 | a log holding only the sample row yields the header and one 8-field record dated `2023-01-05 10:00:00` with digit-only SIZE and PAGES; the counter is 1 |
| `PrintlogScenarios.JammedPrinterRowIgnored` | printlog_parser.py:39-42 | a six-field row whose message is `Printer jammed` yields only the header and a counter of 0 |
| `PrintlogScenarios.FourFieldRowCounted` | printlog_parser.py:44-46 | a four-field row yields only the header and a counter of 1 |
| `PrintlogScenarios.BlankLineAborts` | printlog_parser.py:37 | a blank line (a row with no fields) makes the run fail at that row, whatever follows |
| `PrintlogScenarios.EmptyLogYieldsHeader` | printlog_parser.py:34 | a log with no data rows yields the header alone and a counter of 0 |

## Left out

- Command-line parsing, input-file discovery, the interactive choice of a file and the exits on error (lines 16-23, 65-113). These are console and filesystem glue.
- Opening the input as UTF-8, skipping its first line and splitting it with `csv.reader` (lines 29-31). The model starts from the rows already split. CSV quoting belongs to Python's library.
- `write_to_csv` (lines 51-62). It creates directories, encodes as cp1251 and drops unencodable characters, and writes with `csv.writer`. All of that is I/O and library behaviour.
- The console messages (lines 27-28, 41, 45, 47). The counter they report is modelled.
- Python's regex engine. `IsSearch` fixes which results are allowed, not which split of the `(.*)` groups the greedy, leftmost backtracking search picks.
- `IsDigit`: `\d` is modelled as `0`-`9`. In a Python string pattern it also accepts other Unicode decimal digits, so the model treats a message using those as not matching.
- `SampleRowYieldsOneRecord`: does not name the captured groups of the sample record. The model leaves open which split of the `(.*)` groups the engine picks, and no lemma proves that the sample message admits only one split. So only the date, the field count and the digit-only SIZE and PAGES are stated.
- Running the tool twice gives the same report: every member here is a deterministic function of its inputs, so this is not stated separately.
