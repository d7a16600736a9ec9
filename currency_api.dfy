/** The service of currency_api.py: the table loaded once at startup, with
    its entirely empty columns dropped in place, and the endpoint that turns
    a lookup into an HTTP reply. */
module CurrencyApi {
  import opened Tools

  // ---------------------------------------------------------------------------
  // Dropping the columns that hold no value at all
  // ---------------------------------------------------------------------------

  /** At least one row has a value in this column: the column mask
      `notna().any()` behind `how='all'`. */
  predicate HasData(c: Column) {
    exists k | 0 <= k < |c.cells| :: c.cells[k].Some?
  }

  /** `a` is `b` with some elements removed and the rest in their order. */
  predicate IsSubsequence<T(==)>(a: seq<T>, b: seq<T>)
    decreases |b|
  {
    if a == [] then true
    else if b == [] then false
    else if a[|a| - 1] == b[|b| - 1] then IsSubsequence(a[..|a| - 1], b[..|b| - 1])
    else IsSubsequence(a, b[..|b| - 1])
  }

  /** The columns that hold at least one value, in their original order. */
  function KeepColumnsWithData(cols: seq<Column>): (r: seq<Column>)
    ensures |r| <= |cols|
    decreases |cols|
  {
    if cols == [] then []
    else if HasData(cols[|cols| - 1]) then KeepColumnsWithData(cols[..|cols| - 1]) + [cols[|cols| - 1]]
    else KeepColumnsWithData(cols[..|cols| - 1])
  }

  /** A column survives exactly when it is one of the input columns and
      holds some value. */
  lemma {:induction false} KeepColumnsWithDataMembers(cols: seq<Column>)
    ensures forall c :: c in KeepColumnsWithData(cols) <==> c in cols && HasData(c)
    decreases |cols|
  {
    if cols != [] {
      var prefix, last := cols[..|cols| - 1], cols[|cols| - 1];
      KeepColumnsWithDataMembers(prefix);
      assert cols == prefix + [last];
    }
  }

  /** Distinct column names stay distinct. */
  lemma {:induction false} KeepColumnsWithDataDistinct(cols: seq<Column>)
    requires DistinctNames(cols)
    ensures DistinctNames(KeepColumnsWithData(cols))
    decreases |cols|
  {
    if cols != [] {
      var prefix, last := cols[..|cols| - 1], cols[|cols| - 1];
      assert DistinctNames(prefix);
      KeepColumnsWithDataDistinct(prefix);
      if HasData(last) {
        var init := KeepColumnsWithData(prefix);
        KeepColumnsWithDataMembers(prefix);
        forall c | c in init ensures c.name != last.name {
          var i :| 0 <= i < |prefix| && prefix[i] == c;
        }
        var r := init + [last];
        forall i, j | 0 <= i < j < |r| ensures r[i].name != r[j].name {
          if j == |init| {
            assert r[i] in init;
          }
        }
      }
    }
  }

  /** `df.dropna(axis=1, how='all')`: the table without its all-null columns. */
  function DropEmpty(t: Table): (r: Table)
    ensures r.height == t.height
    ensures forall c :: c in r.columns <==> c in t.columns && HasData(c)
  {
    KeepColumnsWithDataMembers(t.columns);
    Table(KeepColumnsWithData(t.columns), t.height)
  }

  /** A column is kept exactly when some row has a value in it; kept
      columns keep every one of their cells, and the number of rows does not
      change. */
  lemma DropEmptyKeepsExactly(t: Table)
    ensures forall c :: c in DropEmpty(t).columns <==> c in t.columns && HasData(c)
    ensures DropEmpty(t).height == t.height
    ensures WellFormed(t) ==> WellFormed(DropEmpty(t))
  {
    var r := DropEmpty(t).columns;
    KeepColumnsWithDataMembers(t.columns);
    if WellFormed(t) {
      KeepColumnsWithDataDistinct(t.columns);
      forall i | 0 <= i < |r| ensures |r[i].cells| == t.height {
        assert r[i] in t.columns;
      }
    }
  }

  /** Pruning keeps the relative order of the columns it keeps. */
  lemma {:induction false} KeepColumnsWithDataInOrder(cols: seq<Column>)
    ensures IsSubsequence(KeepColumnsWithData(cols), cols)
    decreases |cols|
  {
    if cols != [] {
      var prefix, last := cols[..|cols| - 1], cols[|cols| - 1];
      var init := KeepColumnsWithData(prefix);
      KeepColumnsWithDataInOrder(prefix);
      if HasData(last) {
        assert (init + [last])[..|init|] == init;
      } else if init != [] {
        KeepColumnsWithDataMembers(prefix);
        assert init[|init| - 1] in init;
      }
    }
  }

  /** Pruning columns that all hold data changes nothing. */
  lemma {:induction false} KeepColumnsWithDataAllKept(cols: seq<Column>)
    requires forall i | 0 <= i < |cols| :: HasData(cols[i])
    ensures KeepColumnsWithData(cols) == cols
    decreases |cols|
  {
    if cols != [] {
      var prefix, last := cols[..|cols| - 1], cols[|cols| - 1];
      assert forall i | 0 <= i < |prefix| :: prefix[i] == cols[i];
      KeepColumnsWithDataAllKept(prefix);
      assert HasData(last);
      assert prefix + [last] == cols;
    }
  }

  /** Dropping the empty columns twice is the same as dropping them once. */
  lemma DropEmptyIdempotent(t: Table)
    ensures DropEmpty(DropEmpty(t)) == DropEmpty(t)
  {
    var kept := KeepColumnsWithData(t.columns);
    KeepColumnsWithDataMembers(t.columns);
    assert forall i | 0 <= i < |kept| :: kept[i] in kept;
    KeepColumnsWithDataAllKept(kept);
  }

  /** A currency whose column was empty in every row is unknown after
      pruning, whatever the date. */
  lemma EmptyColumnNotAvailable(t: Table, i: int, date: string)
    requires WellFormed(t)
    requires 0 <= i < |t.columns| && !HasData(t.columns[i])
    ensures WellFormed(DropEmpty(t))
    ensures GetValue(DropEmpty(t), date, t.columns[i].name) == Err(CurrencyNotAvailable(t.columns[i].name))
  {
    var name := t.columns[i].name;
    var p := DropEmpty(t);
    DropEmptyKeepsExactly(t);
    if HasColumn(p, name) {
      var j :| 0 <= j < |p.columns| && IsColumnAt(p, name, j);
      assert p.columns[j] in p.columns;
      var k :| 0 <= k < |t.columns| && t.columns[k] == p.columns[j];
      assert false;
    }
  }

  // ---------------------------------------------------------------------------
  // The service: the module-level table and the endpoint
  // ---------------------------------------------------------------------------

  const StatusNotFound: int := 404
  const ErrorMessage: string := "Something wrong happend, please read the log for more information"

  /** The JSON body of a reply. */
  datatype Body =
    | RateBody(currency: string, date: string, value: string)
    | ErrorBody(error: string)

  datatype Reply = Reply(body: Body, status: int)

  class Service {
    /** The table every request reads: `df` once pruning has run. */
    var df: Table

    constructor (raw: Table)
      ensures df == raw
    {
      df := raw;
    }

    /** `df.dropna(axis=1, how='all', inplace=True)`: keeps, in order, the
        columns in which some row has a value; the row count is unchanged. */
    method DropEmptyColumns()
      requires WellFormed(df)
      modifies this
      ensures df == DropEmpty(old(df))
      ensures WellFormed(df)
    {
      DropEmptyKeepsExactly(df);
      var kept := ColumnsWithData(df.columns);
      df := Table(kept, df.height);
    }

    /** `endpoint`: a successful lookup becomes its result with the default
        success status; every failure becomes the same error body with status
        404. The table is only read. */
    function Endpoint(date: string, currency: string): (reply: Reply)
      reads this
      requires WellFormed(df)
      ensures reply.status == StatusOk <==> GetValue(df, date, currency).Ok?
      ensures reply.status == StatusOk ==>
        reply.body.RateBody? && reply.body.currency == currency && reply.body.date == date &&
        IsStoredValue(df, date, currency, reply.body.value)
      ensures reply.status != StatusOk ==> reply == Reply(ErrorBody(ErrorMessage), StatusNotFound)
    {
      match GetValue(df, date, currency)
      case Ok(rate) =>
        ReturnedValueIsStored(df, date, currency, rate.value);
        Reply(RateBody(rate.currency, rate.date, rate.value), StatusOk)
      case Err(_) => Reply(ErrorBody(ErrorMessage), StatusNotFound)
    }
  }

  /** The scan behind `dropna`: one pass over the columns, keeping those in
      which some row has a value. */
  method ColumnsWithData(cols: seq<Column>) returns (kept: seq<Column>)
    ensures kept == KeepColumnsWithData(cols)
  {
    kept := [];
    var i := 0;
    while i < |cols|
      invariant 0 <= i <= |cols|
      invariant kept == KeepColumnsWithData(cols[..i])
    {
      var any := AnyValue(cols[i]);
      assert cols[..i + 1][..i] == cols[..i];
      if any {
        kept := kept + [cols[i]];
      }
      i := i + 1;
    }
    assert cols[..i] == cols;
  }

  /** Whether some row has a value in this column, by a scan of its cells. */
  method AnyValue(c: Column) returns (b: bool)
    ensures b == HasData(c)
  {
    for k := 0 to |c.cells|
      invariant forall j | 0 <= j < k :: c.cells[j].None?
    {
      if c.cells[k].Some? {
        return true;
      }
    }
    return false;
  }

  /** The replies to two failing queries are identical: the reply never
      says which kind of failure occurred. A success is always told apart. */
  lemma EndpointHidesErrorKind(s: Service, date1: string, currency1: string, date2: string, currency2: string)
    requires WellFormed(s.df)
    ensures GetValue(s.df, date1, currency1).Err? && GetValue(s.df, date2, currency2).Err? ==>
      s.Endpoint(date1, currency1) == s.Endpoint(date2, currency2)
    ensures GetValue(s.df, date1, currency1).Ok? && GetValue(s.df, date2, currency2).Err? ==>
      s.Endpoint(date1, currency1) != s.Endpoint(date2, currency2)
  {
  }

  // ---------------------------------------------------------------------------
  // Startup: download, extract, read and prune, each failure fatal
  // ---------------------------------------------------------------------------

  /** The module-level startup: the downloaded response passes the status
      gate, `unzip` decodes the archive (None: not a zip container), the
      named member is extracted, `readCsv` reads it (None: not a table) and
      the all-null columns are dropped. The first failure aborts startup. */
  method Startup(response: Response, unzip: Bytes -> Option<seq<Entry>>, fileToExtract: string,
                 readCsv: Bytes -> Option<Table>) returns (r: Result<Service>)
    requires forall data :: readCsv(data).Some? ==> WellFormed(readCsv(data).value)
    ensures response.status != StatusOk ==> r == Err(HttpError(response.status))
    ensures response.status == StatusOk && unzip(response.content).None? ==> r == Err(ArchiveFormatError)
    ensures (response.status == StatusOk && unzip(response.content).Some? &&
             !HasMember(unzip(response.content).value, fileToExtract)) ==>
            r == Err(FileNotFound(fileToExtract))
    ensures response.status == StatusOk && unzip(response.content).Some? ==>
      forall i | IsFirstMember(unzip(response.content).value, fileToExtract, i) ::
        var raw := readCsv(unzip(response.content).value[i].contents);
        && (raw.None? ==> r == Err(MalformedTable))
        && (raw.Some? ==> r.Ok? && fresh(r.value) && r.value.df == DropEmpty(raw.value) && WellFormed(r.value.df))
  {
    var zipped := GetFile(response);
    if zipped.Err? {
      return Err(zipped.error);
    }
    var archive := unzip(zipped.value);
    if archive.None? {
      return Err(ArchiveFormatError);
    }
    var member := ExtractFile(archive.value, fileToExtract);
    if member.Err? {
      return Err(member.error);
    }
    var raw := readCsv(member.value);
    if raw.None? {
      return Err(MalformedTable);
    }
    var service := new Service(raw.value);
    service.DropEmptyColumns();
    ghost var i :| IsFirstMember(archive.value, fileToExtract, i) && member.value == archive.value[i].contents;
    forall i' | IsFirstMember(archive.value, fileToExtract, i') ensures i' == i {
      FirstMemberUnique(archive.value, fileToExtract, i, i');
    }
    return Ok(service);
  }
}
