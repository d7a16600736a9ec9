# Currency rate service: a Dafny model

This project models the core of a small currency rate service. At startup the
service downloads a zip archive, takes one named member out of it, reads that
member as a CSV table of exchange rates, and drops every column that is empty
in all rows. After that it answers `GET /<date>/<currency>` with the rate stored
for that date and currency, or with one generic error.

The model has two modules, one per source file, plus scenarios taken from the
tests:

- `Tools` (tools.py) covers three things.
  - The status gate of `ZipDownloader`: `CheckResponse` and `GetFile`.
  - The member selection of `Unzipper._extract_file`: `ExtractFile`. This is
    a method whose loop scans the entries in stored order.
  - The lookup of `CurrencyExtractor`: `ValidateInputs` and `GetValue`.
    These are functions that return a `Result`.
- `CurrencyApi` (currency_api.py) covers the service.
  - The module-level data frame is the field `df` of the class `Service`.
  - The in-place `dropna` is the method `Service.DropEmptyColumns`. It is proved
    against the function `DropEmpty`.
  - The route handler is the function `Service.Endpoint`. It only reads `df`,
    so a lookup cannot change the table, on success or on failure.
  - `Startup` chains the download, the extraction, the CSV read and the
    pruning. The first failure aborts startup.
- `Scenarios` states concrete cases about the model.
  - The lemmas `DownloadScenarios` and `LookupStoredValue` through
    `LookupMissingValue` restate the cases of test_tools.py.
  - The method `ArchiveScenario` holds the archive test of test_tools.py,
    which asks only for `filename.txt`. It adds two names that go beyond the
    test: `Filename.txt` and `filename.txt ` with a trailing space.
  - `SamplePruning` and `EmptyColumnScenario` match no test. They apply the
    startup pruning of currency_api.py to the test table, without and with
    an extra all-null column.

The table is stored column by column, as `Table(columns, height)`. Each
`Column(name, cells)` holds one optional string per row, and `None` stands for
NaN. Row `k` is the k-th cell of every column. The reserved column `"Date"`
keys the rows. `WellFormed` says two things: every column has `height` cells,
and the column names are distinct. Both hold for any frame that `pandas.read_csv`
produces, because it renames repeated header names. Rate values stay strings
from end to end.

Besides the three lookup failures that its messages and tests name, the code
can raise a fourth. Suppose the currency is a valid column but the table has no
`Date` column at all. Then `self.df['Date']` raises a `KeyError`, which is
`DateColumnMissing` in the model. This can really happen: pruning drops a
`Date` column whose cells are all empty.

## Model

| member | source | states |
|---|---|---|
| `Tools.CheckResponse` | tools.py:65-77 | The check passes exactly when the status is 200. Any other status fails with an HTTP error that carries that status. |
| `Tools.GetFile` | tools.py:25-46 | The download succeeds exactly when the status gate passes. It then returns the response body byte for byte. Otherwise it fails with the gate's error and returns no body. |
| `Tools.ExtractFile` | tools.py:115-142 | The result is `Ok` exactly when some entry's name equals the target exactly. It then holds the contents of the first such entry in stored order. Otherwise it fails with `FileNotFound` naming the target. |
| `Tools.FirstMemberUnique` | tools.py:130-136 | At most one entry is the first exact match, so the extracted contents are determined by the entries and the name. |
| `Tools.FindColumn` | tools.py:178-179 | The column selection `df['Date']` and `df.loc[..., currency]`. The column is found exactly when the table has a column with that name. A found index points at a column with that name. |
| `Tools.ValidateInputs` | tools.py:195-207 | Validation passes exactly when the currency is a column other than `Date` and some row's date cell holds the date. An unknown currency, or `Date` itself, fails with `CurrencyNotAvailable` before the date is examined. A valid currency in a table without a `Date` column fails with `DateColumnMissing` (the `KeyError` of `df['Date']`). A valid currency with a date in no row fails with `DateNotAvailable(date)`. |
| `Tools.GetValue` | tools.py:164-207 | The cases are checked in order. (1) An unknown currency, or `Date`, fails with `CurrencyNotAvailable`, whatever the date. (2) A valid currency in a table without a `Date` column fails with `DateColumnMissing`. (3) A date in no row fails with `DateNotAvailable`. A success carries the queried currency and date. |
| `Tools.GetValueFirstRowDecides` | tools.py:178-190 | Once currency and date are valid, the first row with that date decides. A null cell there fails with `DataNotAvailable(currency, date)`. A stored string `v` gives `Rate(currency, date, v)`. Later rows with the same date are never consulted. |
| `Tools.StoredValueIsReturned` | tools.py:178-190 | A string stored for a currency other than `Date`, in the first row with the date, is returned unchanged. |
| `Tools.ReturnedValueIsStored` | tools.py:178-190 | Whatever a successful lookup returns is the string stored for that currency in the first row with that date. |
| `Tools.GetValueSucceedsExactly` | tools.py:178-190 | Round trip, in both directions. The lookup returns `Rate(currency, date, v)` exactly when the currency is not `Date` and `v` is the unchanged string stored for that currency in the first row with that date. |
| `CurrencyApi.KeepColumnsWithData` | currency_api.py:28 | The filter behind `dropna`: it never produces more columns than its input. Its meaning is stated by the lemmas below. |
| `CurrencyApi.DropEmpty` | currency_api.py:28 | `df.dropna(axis=1, how='all')` as a function. The row count is unchanged. A column (name and every cell) is in the result exactly when it is in the input and holds some value. |
| `CurrencyApi.KeepColumnsWithDataMembers` | currency_api.py:28 | A column is in the pruned list exactly when it is an input column and some row has a value in it. |
| `CurrencyApi.KeepColumnsWithDataDistinct` | currency_api.py:28 | Distinct column names stay distinct after pruning. |
| `CurrencyApi.DropEmptyKeepsExactly` | currency_api.py:27-28 | After pruning, a column (name and every cell) is kept exactly when at least one of its cells is non-null. The row count does not change. A well-formed table stays well-formed. |
| `CurrencyApi.KeepColumnsWithDataInOrder` | currency_api.py:28 | The kept columns are a subsequence of the original columns, so their relative order is preserved. |
| `CurrencyApi.KeepColumnsWithDataAllKept` | currency_api.py:28 | When every column holds some value, pruning returns the columns unchanged. |
| `CurrencyApi.DropEmptyIdempotent` | currency_api.py:28 | Pruning an already pruned table changes nothing. |
| `CurrencyApi.EmptyColumnNotAvailable` | currency_api.py:27-28 | A currency whose column was null in every row fails lookup with `CurrencyNotAvailable` after pruning, whatever the date. |
| `CurrencyApi.ColumnsWithData` | currency_api.py:28 | A single scan over the columns returns exactly the columns that hold some value, in order, as the specification function `KeepColumnsWithData` gives them. |
| `CurrencyApi.AnyValue` | currency_api.py:28 | The column test behind `how='all'`. The scan of a column's cells returns exactly `HasData`, the `notna().any()` mask: true when some cell holds a value, false when every cell is null. |
| `CurrencyApi.Service.constructor` | currency_api.py:25 | The service starts with the table as read. |
| `CurrencyApi.Service.DropEmptyColumns` | currency_api.py:28 | In place, the service's table becomes `DropEmpty` of the old table, and it stays well-formed. |
| `CurrencyApi.Service.Endpoint` | currency_api.py:31-45 | The reply has status 200 exactly when the lookup succeeds. Its body then carries the queried currency and date and the string stored in the table. Every other reply is the one fixed error body with status 404. |
| `CurrencyApi.EndpointHidesErrorKind` | currency_api.py:40-45 | Any two failing queries get identical replies, whatever failed. A successful reply always differs from a failing one. |
| `CurrencyApi.Startup` | currency_api.py:18-28 | A non-200 status aborts with that status. An undecodable archive aborts with `ArchiveFormatError`, and a missing member with `FileNotFound`. An unreadable first matching member aborts with `MalformedTable`. Otherwise the new service holds the pruned table read from that member. |
| `Scenarios.DownloadScenarios` | test_tools.py:12-44 | A 200 response yields `0123456789` unchanged. A 404 response fails with `HttpError(404)`. |
| `Scenarios.LookupStoredValue` | test_tools.py:58-66 | On the three-row test table, `2023-11-20`/`USD` gives the stored `3.1415`. |
| `Scenarios.LookupUnknownDate` | test_tools.py:69-74 | `2023-11-19`/`USD` fails with `DateNotAvailable("2023-11-19")`. |
| `Scenarios.LookupUnknownCurrency` | test_tools.py:77-82 | `2023-11-20`/`ASD` fails with `CurrencyNotAvailable("ASD")`. `Date` is not a currency either. |
| `Scenarios.LookupMissingValue` | test_tools.py:85-90 | `2023-11-22`/`SEK` hits a null cell and fails with `DataNotAvailable("SEK", "2023-11-22")`. |
| `Scenarios.ArchiveScenario` | test_tools.py:93-110 | The one-member archive of the tests yields exactly `navigare necesse est` for `filename.txt`, as the test asks. Beyond the test, `Filename.txt` and `filename.txt ` (trailing space) are not found. |
| `Scenarios.SamplePruning` | test_tools.py:47-55 | No test states this. Pruning the test table keeps it as it is, because every column holds a value. |
| `Scenarios.EmptyColumnScenario` | currency_api.py:27-28 | No test states this. The test table with an extra all-null `JPY` column loses it at startup. Looking up `JPY` then fails with `CurrencyNotAvailable`. |

## Left out

- The HTTP request itself (`requests.get`) and its transport errors are not modelled. The model starts from the status and body that came back.
- Zip decoding and decompression (`zipfile.ZipFile`) are not modelled. `ExtractFile` takes the decoded entries. In `Startup`, decoding is a parameter `unzip`, and `None` from it stands for a corrupt archive.
- CSV parsing (`pd.read_csv`) is not modelled. It is the parameter `readCsv` of `Startup`. The model assumes its result is well-formed and does not detect malformed frames.
- pandas would read rate columns as floating-point numbers. The model keeps every value as the stored string and does no numeric interpretation, so that no float rounding enters and each rate reaches the reply as the CSV spells it.
- Logging, `load_dotenv`, the environment variables and the Flask app with its route registration and `app.run` are not modelled. The reply's JSON encoding is also left out: the body is a datatype.
- Error messages are modelled by their kind and the values they carry, not by their text.
- `GetValue`: only the first matching row is specified for duplicate dates. The source defines nothing more.
- `ValidateInputs` and `GetValue` require a well-formed table: one cell per row in each column and distinct names. pandas guarantees this, because `read_csv` renames repeated headers. On a frame that did repeat a name, say two `USD` columns, `df.loc[mask, 'USD']` would return a frame. Then `result[0]` would be an array, `if pd.isna(result[0])` (tools.py:180) would raise `ValueError`, and `endpoint` would answer 404. The model does not cover that case.
