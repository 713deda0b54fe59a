# Chicago crime ingestion, modelled in Dafny

This project models the core of `ops/ingestion/ingest_chicago_to_s3.py`. That
script takes one month of crime-incident records from the Chicago open-data
API, flattens the JSON records into a CSV table, and stores the table in an
object store as the raw layer. It has four pieces of pure logic, modelled
here as pure functions and short methods over immutable values, plus the
rule in `main` that joins them:

- **Month window** (`get_month_window`). From a run date it builds the
  half-open window `[first of previous month, first of run month)`. Both ends
  are written as `YYYY-MM-DDT00:00:00.000` timestamps.
- **Object key** (`build_s3_key`). The script works out the previous month a
  second time, on its own, and names the object
  `chicago/chicago_crime_YYYYMMDD.csv` after day 1 of that month.
- **Pagination** (`download_chicago_month_window`, together with the shape
  check in `fetch_chicago_page`). The API is an oracle from offset to
  response. The loop asks for offsets `0, P, 2P, …` with `P = 50000`. It
  stops at the first page that holds fewer than `P` records, and aborts on a
  response that is not a list.
- **Table encoding** (`records_to_csv_bytes`, up to the table). The header is
  the sorted union of all field names. There is one row per record, in batch
  order, with an empty cell for each field the record lacks. An empty batch
  is refused.
- **Orchestration** (`main`). When the download returns no records, the run
  ends before any table is built or any upload is issued.

Modules: `Base` holds the record type and the result type. `Decimal` holds
zero-padded numerals and their parser. `Calendar` holds dates, month
indices and chronological order. `MonthWindow`, `Pagination`, `CsvTable` and
`Ingest` follow the stages of the script.

Each operation has a partner that it is proved against:

- The window and the key are proved against a month-counting reference
  (`Calendar.FirstOfPreviousMonth`) and against parsers that read the
  strings back.
- The download loop is proved against a closed-form description of what
  it returns.
- The table is proved against a reader that turns a row back into a
  record.
- Sortedness of the header is proved against uniqueness: there is only one
  strictly sorted listing of a set of names.

## Model

| member | source | states |
|---|---|---|
| Decimal.PaddedRoundTrip | ops/ingestion/ingest_chicago_to_s3.py:58-59 | A zero-padded field (`%Y`, `%m`, `%d`) reads back to the number it was written from, whenever the number fits in the width |
| Calendar.FirstOfPreviousMonth | ops/ingestion/ingest_chicago_to_s3.py:51-55 | The reference for "previous month": day 1, a month between 1 and 12, and a month index exactly one below the run date's |
| Calendar.PreviousMonthCases | ops/ingestion/ingest_chicago_to_s3.py:52-55 | From January the previous month is December of the year before; from any other month it is month − 1 of the same year |
| MonthWindow.IsoMidnightLayout | ops/ingestion/ingest_chicago_to_s3.py:58-59 | A timestamp is 23 characters: four year digits, `-`, two month digits, `-`, two day digits, then `T00:00:00.000` |
| MonthWindow.IsoMidnightRoundTrip | ops/ingestion/ingest_chicago_to_s3.py:58-59 | Parsing the formatted timestamp of a date gives back that date |
| MonthWindow.CompactDateRoundTrip | ops/ingestion/ingest_chicago_to_s3.py:117 | Parsing the `%Y%m%d` string of a date gives back that date |
| MonthWindow.KeyRoundTrip | ops/ingestion/ingest_chicago_to_s3.py:119 | The date an object key is named after can be read back from the key |
| MonthWindow.GetMonthWindow | ops/ingestion/ingest_chicago_to_s3.py:38-61 | The window is the timestamp of day 1 of the previous month paired with the timestamp of day 1 of the run month |
| MonthWindow.BuildS3Key | ops/ingestion/ingest_chicago_to_s3.py:101-120 | The key is `chicago/chicago_crime_` + `YYYYMMDD` of day 1 of the previous month + `.csv` |
| MonthWindow.WindowBounds | ops/ingestion/ingest_chicago_to_s3.py:48-59 | The end reads back as day 1 of the run month. The start reads back as a valid date on day 1 of the month just before |
| MonthWindow.KeyMatchesWindowStart | ops/ingestion/ingest_chicago_to_s3.py:107-119 | The key and the window are derived separately but name the same date. The key's eight digits are the start timestamp's year, month and day digits |
| MonthWindow.WindowIsPreviousMonth | ops/ingestion/ingest_chicago_to_s3.py:68 | A valid date lies in `[start, end)` if and only if its month immediately precedes the run month |
| MonthWindow.DayDoesNotMatter | ops/ingestion/ingest_chicago_to_s3.py:49 | Two run dates in the same year and month give the same window and the same key |
| MonthWindow.KeysDistinguishMonths | ops/ingestion/ingest_chicago_to_s3.py:101-120 | Two run dates give the same key if and only if they fall in the same month, so runs for different months never overwrite each other |
| MonthWindow.ExampleWindowMidDecember | ops/ingestion/ingest_chicago_to_s3.py:44-46 | Run date 2025-12-18 gives `("2025-11-01T00:00:00.000", "2025-12-01T00:00:00.000")` |
| MonthWindow.ExampleKeyMidDecember | ops/ingestion/ingest_chicago_to_s3.py:101-120 | Run date 2025-12-18 gives `chicago/chicago_crime_20251101.csv` |
| MonthWindow.ExampleWindowJanuary | ops/ingestion/ingest_chicago_to_s3.py:52-53 | Run date 2025-01-10 gives `("2024-12-01T00:00:00.000", "2025-01-01T00:00:00.000")` |
| MonthWindow.ExampleKeyJanuary | ops/ingestion/ingest_chicago_to_s3.py:110-111 | Run date 2025-01-10 gives `chicago/chicago_crime_20241201.csv` |
| Pagination.DownloadMonthWindow | ops/ingestion/ingest_chicago_to_s3.py:79-98 | Request `i` goes to offset `i·P`. The last request is the first one whose answer is not a list of at least `P` records. The result is an error (carrying the offset of the malformed last answer, an addition of the model); otherwise it is all pages concatenated in order, the last one included |
| Pagination.LastRequestUnique | ops/ingestion/ingest_chicago_to_s3.py:83-93 | The API's answers fix how many requests the loop makes |
| Pagination.CollectedLength | ops/ingestion/ingest_chicago_to_s3.py:89 | `n` pages of exactly `P` records add up to `n·P` records |
| Pagination.CollectedOrder | ops/ingestion/ingest_chicago_to_s3.py:89 | Record `i` of page `j` is at position `j·P + i` of the batch: pages are appended in request order |
| Pagination.FullPagesThenShort | ops/ingestion/ingest_chicago_to_s3.py:81-95 | After `N` full pages and then a page of `k < P` records, request `N` is the only last request (so `N+1` requests are made). The batch has `N·P + k` records and is the full pages followed by the short one |
| Pagination.MalformedAborts | ops/ingestion/ingest_chicago_to_s3.py:74-75 | An answer that is not a list ends the download with an error (the model adds its offset to it). No records are returned |
| CsvTable.BelowIrreflexive | ops/ingestion/ingest_chicago_to_s3.py:138 | No field name sorts before itself |
| CsvTable.BelowAsymmetric | ops/ingestion/ingest_chicago_to_s3.py:138 | Two field names never sort before each other |
| CsvTable.BelowTransitive | ops/ingestion/ingest_chicago_to_s3.py:138 | The sort order on field names is transitive |
| CsvTable.BelowTotal | ops/ingestion/ingest_chicago_to_s3.py:138 | Of two different field names, one sorts before the other |
| CsvTable.Insert | ops/ingestion/ingest_chicago_to_s3.py:138 | Inserting a name into a listing adds exactly that name and keeps everything else |
| CsvTable.InsertKeepsSorted | ops/ingestion/ingest_chicago_to_s3.py:138 | Inserting a new name into a strictly sorted listing keeps it strictly sorted |
| CsvTable.SortedCardinality | ops/ingestion/ingest_chicago_to_s3.py:138 | A strictly sorted listing has no duplicates |
| CsvTable.SortedUnique | ops/ingestion/ingest_chicago_to_s3.py:138 | Two strictly sorted listings of the same names are equal |
| CsvTable.KeyUnion | ops/ingestion/ingest_chicago_to_s3.py:135-137 | A name is in the union if and only if some record of the batch has that field |
| CsvTable.Row | ops/ingestion/ingest_chicago_to_s3.py:143-147 | A row has one cell per column. The cell is the record's value for that column, or `""` when the record lacks the field |
| CsvTable.RowRoundTrip | ops/ingestion/ingest_chicago_to_s3.py:143-147 | Reading a row back gives exactly the header's columns, each with the record's value or `""` |
| CsvTable.FieldNames | ops/ingestion/ingest_chicago_to_s3.py:135-138 | The computed header is strictly sorted (so it has no duplicates). It holds exactly the names that occur in some record |
| CsvTable.RecordsToTable | ops/ingestion/ingest_chicago_to_s3.py:123-151 | The result is an error if and only if the batch is empty. Otherwise it is the table of the batch: sorted union header, and row `i` is the row of record `i`, one row per record |
| CsvTable.TableKeepsEveryValue | ops/ingestion/ingest_chicago_to_s3.py:127-128 | Every field of every record becomes a column, so no value is dropped. A row reads back to its record plus `""` for the columns other records brought in |
| CsvTable.TableIsDetermined | ops/ingestion/ingest_chicago_to_s3.py:135-138 | A batch has exactly one table |
| Ingest.Run | ops/ingestion/ingest_chicago_to_s3.py:189-207 | A download error ends the run with that error. An empty batch ends it cleanly with no table and no upload. Otherwise the table of the batch is uploaded under `BuildS3Key(runDate)` |

## Left out

- HTTP requests are left out (lines 63-72): the query parameters, `requests.get` with its timeout, and `raise_for_status`. They are network I/O through a library. The endpoint for a window is an abstract function from offset to response. Transport and HTTP-status failures are not modelled; only the outer list-shape check of line 74 is. The elements of a page are assumed to be objects; see the `Pagination.DownloadMonthWindow` lines below.
- The `$where` filter (line 68) is modelled for its meaning: `MonthWindow.InWindow` states which dates the window holds, and `MonthWindow.WindowIsPreviousMonth` proves that this is exactly the previous month. The endpoint, however, is not required to honour the filter, so the model does not promise that the server returns only records inside the window. The `$order` sort (line 67) is not modelled either, so nothing says the records arrive in date order.
- Uploading to the object store is left out (lines 154-162), because it is storage I/O. `Ingest.Run` returns the key and the table that would be uploaded. Storage failures are not modelled.
- Loading `.env` and reading configuration from the environment is left out (lines 25-33).
- The command line, parsing of the run date and `date.today()` are left out (lines 165-186), because they are library parsing and wall-clock time. The run date is taken as an already valid `Calendar.Date`.
- CSV text is left out (lines 142-151): quoting and escaping by `csv.DictWriter`, `\r\n` line ends, and UTF-8 encoding. The model stops at a header plus rows of string cells.
- JSON values are taken to be strings already. `str()` of numbers, booleans and nulls, and nested JSON values, are not modelled.
- Progress and log output (`print`) is left out.
- MonthWindow.GetMonthWindow: requires a year from 1001 to 9999, which is narrower than Python's `date`. Below year 1000, how `strftime("%Y")` pads the year depends on the platform, and January of year 1 makes `replace(year=0)` raise.
- MonthWindow.BuildS3Key: has the same year bound as `GetMonthWindow`, for the same reasons.
- Ingest.Run: has the same year bound. It also requires that some request of the loop gets a short page, an empty page or a malformed answer. The script has no iteration cap, and against an API that always returns full pages it would loop forever.
- Pagination.DownloadMonthWindow: assumes every element of a page is a JSON object with string values (a `Base.Record`). The check at line 74 looks only at the outer list. So an answer such as `[1, "x"]` passes it, is appended at line 89, and only fails later, with `AttributeError` from `rec.keys()` at line 137, which ends the run with no upload. The model cannot express such an answer, and this failure path is not modelled.
- Pagination.DownloadMonthWindow: the `ValueError` raised at line 75 carries a fixed message and no offset. The `offset` field of `Pagination.MalformedResponse` is an addition of the model, so that the contract can say which request failed.
- Pagination.DownloadMonthWindow: requires the same eventual stop as `Run`. It also takes the page size as a parameter that must be positive; the script uses the constant 50000, which is `Pagination.PageSize`.

## Notes on the source

- The module docstring (line 9) describes a partitioned key `chicago/year=YYYY/month=MM/chicago_crime_YYYYMMDD.csv`. The code builds `chicago/chicago_crime_YYYYMMDD.csv` (line 119), and the `year` and `month` it computes at lines 115-116 are never used. The model follows the code.
- `get_month_window` and `build_s3_key` each work out the previous month themselves (lines 49-55 and 107-113). The model keeps both derivations, as the code does. `MonthWindow.KeyMatchesWindowStart` proves that they agree.
