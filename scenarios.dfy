/** Concrete cases stated about the model: those of test_tools.py, and two
    for the pruning at startup. */
module Scenarios {
  import opened Tools
  import opened CurrencyApi

  /** The string's characters as bytes (every character here is ASCII). */
  function Ascii(s: string): (b: Bytes)
    requires forall i | 0 <= i < |s| :: s[i] as int < 256
    ensures |b| == |s| && forall i | 0 <= i < |s| :: b[i] as int == s[i] as int
  {
    seq(|s|, (i: int) requires 0 <= i < |s| => s[i] as int as byte)
  }

  /** A download answered with 200 yields its body unchanged; one answered
      with 404 fails with that status and yields no body. */
  lemma DownloadScenarios()
    ensures GetFile(Response(200, Ascii("0123456789"))) == Ok(Ascii("0123456789"))
    ensures GetFile(Response(404, Ascii("0123456789"))) == Err(HttpError(404))
  {
  }

  /** The three-row table of the tests: Date, USD and SEK, with the last SEK
      value missing. */
  function SampleTable(): (t: Table)
    ensures WellFormed(t)
  {
    Table([Column("Date", [Some("2023-11-20"), Some("2023-11-21"), Some("2023-11-22")]),
           Column("USD", [Some("3.1415"), Some("1.4142"), Some("2.7182")]),
           Column("SEK", [Some("6.6260"), Some("9.1093"), None])], 3)
  }

  /** The stored string is returned as it is. */
  lemma LookupStoredValue()
    ensures GetValue(SampleTable(), "2023-11-20", "USD") == Ok(Rate("USD", "2023-11-20", "3.1415"))
  {
    var t := SampleTable();
    assert IsFirstRowOf(t.columns[0].cells, "2023-11-20", 0);
    GetValueFirstRowDecides(t, "2023-11-20", "USD", 1, 0, 0);
  }

  /** A date that no row carries. */
  lemma LookupUnknownDate()
    ensures GetValue(SampleTable(), "2023-11-19", "USD") == Err(DateNotAvailable("2023-11-19"))
  {
    var t := SampleTable();
    assert IsColumnAt(t, "USD", 1) && IsColumnAt(t, DateColumn, 0);
    assert !DateListed(t, "2023-11-19") by {
      assert forall j | 0 <= j < |t.columns| :: IsColumnAt(t, DateColumn, j) ==> j == 0;
      assert Some("2023-11-19") !in t.columns[0].cells;
    }
  }

  /** A currency that is not a column, and the Date column itself. */
  lemma LookupUnknownCurrency()
    ensures GetValue(SampleTable(), "2023-11-20", "ASD") == Err(CurrencyNotAvailable("ASD"))
    ensures GetValue(SampleTable(), "2023-11-20", "Date") == Err(CurrencyNotAvailable("Date"))
  {
    var t := SampleTable();
    assert !HasColumn(t, "ASD") by {
      assert t.columns[0].name != "ASD" && t.columns[1].name != "ASD" && t.columns[2].name != "ASD";
    }
  }

  /** The SEK value of the last row is missing. */
  lemma LookupMissingValue()
    ensures GetValue(SampleTable(), "2023-11-22", "SEK") == Err(DataNotAvailable("SEK", "2023-11-22"))
  {
    var t := SampleTable();
    assert IsFirstRowOf(t.columns[0].cells, "2023-11-22", 2);
    GetValueFirstRowDecides(t, "2023-11-22", "SEK", 2, 0, 2);
  }

  /** Pruning the sample keeps all three columns: each holds a value. */
  lemma SamplePruning()
    ensures DropEmpty(SampleTable()) == SampleTable()
  {
    var t := SampleTable();
    assert HasData(t.columns[0]) && HasData(t.columns[1]) && HasData(t.columns[2]) by {
      assert t.columns[0].cells[0].Some? && t.columns[1].cells[0].Some? && t.columns[2].cells[0].Some?;
    }
    KeepColumnsWithDataAllKept(t.columns);
  }

  /** A currency column with no value in any row is dropped at startup and
      then not available. */
  lemma EmptyColumnScenario()
    ensures WellFormed(DropEmpty(WithEmptyColumn()))
    ensures GetValue(DropEmpty(WithEmptyColumn()), "2023-11-20", "JPY") == Err(CurrencyNotAvailable("JPY"))
  {
    EmptyColumnNotAvailable(WithEmptyColumn(), 3, "2023-11-20");
  }

  /** The sample with an extra JPY column holding no value. */
  function WithEmptyColumn(): (t: Table)
    ensures WellFormed(t) && |t.columns| == 4 && t.columns[3] == Column("JPY", [None, None, None])
  {
    Table(SampleTable().columns + [Column("JPY", [None, None, None])], 3)
  }

  /** The archive of the tests holds one member, `filename.txt`; asking for
      it yields its bytes, and names that differ in case or by a trailing
      space are not found. */
  method ArchiveScenario() returns (found: Result<Bytes>, upper: Result<Bytes>, spaced: Result<Bytes>)
    ensures found == Ok(Ascii("navigare necesse est"))
    ensures upper == Err(FileNotFound("Filename.txt"))
    ensures spaced == Err(FileNotFound("filename.txt "))
  {
    var contents := Ascii("navigare necesse est");
    var archive := [Entry("filename.txt", contents)];
    found := ExtractFile(archive, "filename.txt");
    assert IsFirstMember(archive, "filename.txt", 0);
    upper := ExtractFile(archive, "Filename.txt");
    assert archive[0].filename != "Filename.txt";
    spaced := ExtractFile(archive, "filename.txt ");
    assert archive[0].filename != "filename.txt ";
  }
}
