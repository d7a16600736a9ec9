/** The acquisition and lookup pipeline of the currency service (tools.py):
    the HTTP status gate of the downloader, the selection of one member of a
    decoded archive, and the point lookup of a rate in the currency table. */
module Tools {

  // ---------------------------------------------------------------------------
  // Shared values
  // ---------------------------------------------------------------------------

  newtype byte = b: int | 0 <= b < 256
  type Bytes = seq<byte>

  datatype Option<T> = None | Some(value: T)

  /** The failures raised along the pipeline, one constructor per kind. */
  datatype Error =
    | HttpError(status: int)                 // HTTPError("HTTP error <status>")
    | ArchiveFormatError                     // the archive bytes are not a zip container
    | FileNotFound(name: string)             // the member to extract is not in the archive
    | MalformedTable                         // the extracted member is not a readable CSV
    | CurrencyNotAvailable(currency: string)
    | DateColumnMissing                      // df['Date'] raises KeyError
    | DateNotAvailable(date: string)
    | DataNotAvailable(currency: string, date: string)

  datatype Result<T> = Ok(value: T) | Err(error: Error)

  /** The outcome of a check that returns nothing when it passes. */
  datatype Outcome = Pass | Fail(error: Error)

  /** The index of the first element of `s` that satisfies `p`, if any. */
  function FirstWhere<T>(s: seq<T>, p: T -> bool): (r: Option<nat>)
    ensures r.Some? ==> r.value < |s| && p(s[r.value])
    ensures r.Some? ==> forall j | 0 <= j < r.value :: !p(s[j])
    ensures r.None? <==> forall j | 0 <= j < |s| :: !p(s[j])
  {
    if s == [] then None
    else if p(s[0]) then Some(0)
    else match FirstWhere(s[1..], p)
         case None => None
         case Some(i) => Some(i + 1)
  }

  // ---------------------------------------------------------------------------
  // ZipDownloader: the status gate on the response of the download
  // ---------------------------------------------------------------------------

  const StatusOk: int := 200

  /** What the HTTP request returned; the request itself is not modelled. */
  datatype Response = Response(status: int, content: Bytes)

  /** `_check_response`: only status 200 passes; any other status is an error
      carrying that status. */
  function CheckResponse(response: Response): (r: Outcome)
    ensures r.Pass? <==> response.status == StatusOk
    ensures r.Fail? ==> r.error == HttpError(response.status)
  {
    if response.status != StatusOk then Fail(HttpError(response.status)) else Pass
  }

  /** `get_file`: the body of an accepted response, byte for byte; a rejected
      response yields no body at all. */
  function GetFile(response: Response): (r: Result<Bytes>)
    ensures r.Ok? <==> CheckResponse(response).Pass?
    ensures r.Ok? ==> r.value == response.content
    ensures r.Err? ==> r.error == CheckResponse(response).error
  {
    match CheckResponse(response)
    case Fail(e) => Err(e)
    case Pass => Ok(response.content)
  }

  // ---------------------------------------------------------------------------
  // Unzipper: selecting one member of the archive
  // ---------------------------------------------------------------------------

  /** One entry of the archive, already decompressed. */
  datatype Entry = Entry(filename: string, contents: Bytes)

  predicate HasMember(entries: seq<Entry>, name: string) {
    exists i | 0 <= i < |entries| :: entries[i].filename == name
  }

  /** Entry `i` is the first one, in stored order, named exactly `name`. */
  predicate IsFirstMember(entries: seq<Entry>, name: string, i: int) {
    && 0 <= i < |entries|
    && entries[i].filename == name
    && forall j | 0 <= j < i :: entries[j].filename != name
  }

  /** `_extract_file`: scans the entries in stored order and returns the
      contents of the first one whose name equals `fileToExtract` exactly;
      fails with FileNotFound only after every entry has been looked at. */
  method ExtractFile(entries: seq<Entry>, fileToExtract: string) returns (r: Result<Bytes>)
    ensures r.Ok? <==> HasMember(entries, fileToExtract)
    ensures r.Ok? ==> exists i :: IsFirstMember(entries, fileToExtract, i) && r.value == entries[i].contents
    ensures r.Err? ==> r.error == FileNotFound(fileToExtract)
  {
    for i := 0 to |entries|
      invariant forall j | 0 <= j < i :: entries[j].filename != fileToExtract
    {
      if entries[i].filename == fileToExtract {
        assert IsFirstMember(entries, fileToExtract, i);
        return Ok(entries[i].contents);
      }
    }
    return Err(FileNotFound(fileToExtract));
  }

  /** The first exact match is unique, so the extracted contents are
      determined by the entries and the name. */
  lemma FirstMemberUnique(entries: seq<Entry>, name: string, i: int, j: int)
    requires IsFirstMember(entries, name, i) && IsFirstMember(entries, name, j)
    ensures i == j
  {
  }

  // ---------------------------------------------------------------------------
  // CurrencyExtractor: the rate table and its point lookup
  // ---------------------------------------------------------------------------

  /** The reserved column that keys the rows; it is never a currency. */
  const DateColumn: string := "Date"

  /** One column of the table: its header and one optional cell per row
      (None stands for a missing value, NaN in the data frame). */
  datatype Column = Column(name: string, cells: seq<Option<string>>)

  /** The table, stored column by column; row k is the k-th cell of every
      column. `height` is the number of rows, which survives even when every
      column is dropped. */
  datatype Table = Table(columns: seq<Column>, height: nat)

  /** No two of the columns share a name. */
  predicate DistinctNames(cols: seq<Column>) {
    forall i, j | 0 <= i < j < |cols| :: cols[i].name != cols[j].name
  }

  /** Every column has one cell per row and the column names are distinct. */
  predicate WellFormed(t: Table) {
    && (forall i | 0 <= i < |t.columns| :: |t.columns[i].cells| == t.height)
    && DistinctNames(t.columns)
  }

  predicate IsColumnAt(t: Table, name: string, i: int) {
    0 <= i < |t.columns| && t.columns[i].name == name
  }

  predicate HasColumn(t: Table, name: string) {
    exists i | 0 <= i < |t.columns| :: IsColumnAt(t, name, i)
  }

  /** Some row of the table has `date` in its Date column. */
  predicate DateListed(t: Table, date: string) {
    exists j | 0 <= j < |t.columns| :: IsColumnAt(t, DateColumn, j) && Some(date) in t.columns[j].cells
  }

  /** Row `k` is the first row whose date cell holds `date`. */
  predicate IsFirstRowOf(dates: seq<Option<string>>, date: string, k: int) {
    && 0 <= k < |dates|
    && dates[k] == Some(date)
    && forall j | 0 <= j < k :: dates[j] != Some(date)
  }

  /** A successful lookup: the query's currency and date with the value
      exactly as the table stores it. */
  datatype Rate = Rate(currency: string, date: string, value: string)

  function FindColumn(t: Table, name: string): (r: Option<nat>)
    ensures r.Some? ==> IsColumnAt(t, name, r.value)
    ensures r.None? <==> !HasColumn(t, name)
  {
    var r := FirstWhere(t.columns, (c: Column) => c.name == name);
    assert r.None? ==> forall i | 0 <= i < |t.columns| :: !IsColumnAt(t, name, i);
    assert r.Some? ==> IsColumnAt(t, name, r.value);
    r
  }

  /** `_validate_inputs`: the currency check comes first, then the date. */
  function ValidateInputs(t: Table, date: string, currency: string): (r: Outcome)
    requires WellFormed(t)
    ensures r.Pass? <==> HasColumn(t, currency) && currency != DateColumn && DateListed(t, date)
    ensures !HasColumn(t, currency) || currency == DateColumn ==> r == Fail(CurrencyNotAvailable(currency))
    ensures HasColumn(t, currency) && currency != DateColumn && !HasColumn(t, DateColumn) ==>
      r == Fail(DateColumnMissing)
    ensures HasColumn(t, currency) && currency != DateColumn && HasColumn(t, DateColumn) && !DateListed(t, date) ==>
      r == Fail(DateNotAvailable(date))
  {
    if !HasColumn(t, currency) || currency == DateColumn then
      Fail(CurrencyNotAvailable(currency))
    else
      match FindColumn(t, DateColumn)
      case None => Fail(DateColumnMissing)
      case Some(d) =>
        if Some(date) !in t.columns[d].cells then Fail(DateNotAvailable(date)) else Pass
  }

  /** `get_value`: the value of `currency` in the first row dated `date`.
      The four outcomes are checked in a fixed order: an unknown currency (or
      the Date column itself), then a missing Date column, then an unlisted
      date, then a missing value in the first matching row. */
  function GetValue(t: Table, date: string, currency: string): (r: Result<Rate>)
    requires WellFormed(t)
    ensures !HasColumn(t, currency) || currency == DateColumn ==>
      r == Err(CurrencyNotAvailable(currency))
    ensures HasColumn(t, currency) && currency != DateColumn && !HasColumn(t, DateColumn) ==>
      r == Err(DateColumnMissing)
    ensures HasColumn(t, currency) && currency != DateColumn && HasColumn(t, DateColumn) && !DateListed(t, date) ==>
      r == Err(DateNotAvailable(date))
    ensures r.Ok? ==> r.value.currency == currency && r.value.date == date
  {
    match ValidateInputs(t, date, currency)
    case Fail(e) => Err(e)
    case Pass =>
      var d := FindColumn(t, DateColumn).value;
      var c := FindColumn(t, currency).value;
      var k := FirstWhere(t.columns[d].cells, (v: Option<string>) => v == Some(date)).value;
      match t.columns[c].cells[k]
      case None => Err(DataNotAvailable(currency, date))
      case Some(v) => Ok(Rate(currency, date, v))
  }

  /** Once the currency and the date are valid, the cell of the currency in
      the first row dated `date` decides: null fails with DataNotAvailable,
      a string is returned exactly as stored. */
  lemma GetValueFirstRowDecides(t: Table, date: string, currency: string, i: int, j: int, k: int)
    requires WellFormed(t) && currency != DateColumn
    requires IsColumnAt(t, currency, i) && IsColumnAt(t, DateColumn, j)
    requires IsFirstRowOf(t.columns[j].cells, date, k)
    ensures k < |t.columns[i].cells|
    ensures GetValue(t, date, currency) ==
      match t.columns[i].cells[k]
      case None => Err(DataNotAvailable(currency, date))
      case Some(v) => Ok(Rate(currency, date, v))
  {
    assert DateListed(t, date) by {
      assert Some(date) == t.columns[j].cells[k];
    }
    assert ValidateInputs(t, date, currency).Pass?;
    var d := FindColumn(t, DateColumn).value;
    var c := FindColumn(t, currency).value;
    assert d == j && c == i;
    var k' := FirstWhere(t.columns[d].cells, (v: Option<string>) => v == Some(date)).value;
    assert k' == k;
  }

  /** `v` is the string stored for `currency` in the first row dated `date`. */
  predicate IsStoredValue(t: Table, date: string, currency: string, v: string) {
    exists i, j, k | 0 <= i < |t.columns| && 0 <= j < |t.columns| && 0 <= k < |t.columns[j].cells| ::
      && IsColumnAt(t, currency, i) && IsColumnAt(t, DateColumn, j)
      && IsFirstRowOf(t.columns[j].cells, date, k)
      && k < |t.columns[i].cells| && t.columns[i].cells[k] == Some(v)
  }

  /** A stored string is what the lookup returns for its query. */
  lemma StoredValueIsReturned(t: Table, date: string, currency: string, v: string)
    requires WellFormed(t) && currency != DateColumn && IsStoredValue(t, date, currency, v)
    ensures GetValue(t, date, currency) == Ok(Rate(currency, date, v))
  {
    var i, j, k :| && 0 <= i < |t.columns| && 0 <= j < |t.columns| && 0 <= k < |t.columns[j].cells|
                   && IsColumnAt(t, currency, i) && IsColumnAt(t, DateColumn, j)
                   && IsFirstRowOf(t.columns[j].cells, date, k)
                   && k < |t.columns[i].cells| && t.columns[i].cells[k] == Some(v);
    GetValueFirstRowDecides(t, date, currency, i, j, k);
  }

  /** Whatever the lookup returns is the string stored for its query. */
  lemma ReturnedValueIsStored(t: Table, date: string, currency: string, v: string)
    requires WellFormed(t) && GetValue(t, date, currency) == Ok(Rate(currency, date, v))
    ensures currency != DateColumn && IsStoredValue(t, date, currency, v)
  {
    var i := FindColumn(t, currency).value;
    var j :| 0 <= j < |t.columns| && IsColumnAt(t, DateColumn, j) && Some(date) in t.columns[j].cells;
    var cells := t.columns[j].cells;
    var m :| 0 <= m < |cells| && cells[m] == Some(date);
    var k := FirstWhere(cells, (c: Option<string>) => c == Some(date));
    assert IsFirstRowOf(cells, date, k.value);
    GetValueFirstRowDecides(t, date, currency, i, j, k.value);
  }

  /** Round trip of the lookup: it succeeds with `v` exactly when `v` is the
      string the table stores for the query, unchanged. */
  lemma GetValueSucceedsExactly(t: Table, date: string, currency: string, v: string)
    requires WellFormed(t)
    ensures GetValue(t, date, currency) == Ok(Rate(currency, date, v)) <==>
            currency != DateColumn && IsStoredValue(t, date, currency, v)
  {
    if currency != DateColumn && IsStoredValue(t, date, currency, v) {
      StoredValueIsReturned(t, date, currency, v);
    }
    if GetValue(t, date, currency) == Ok(Rate(currency, date, v)) {
      ReturnedValueIsStored(t, date, currency, v);
    }
  }
}
