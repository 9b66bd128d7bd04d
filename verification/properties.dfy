/** What `process_csv_data` promises for every input: the order its errors
    come in, the shape of its output, that the selection order is thrown
    away, and that an empty selection with no filters writes the input back. */
module ProcessorProperties {
  import opened Wrappers
  import opened CsvTable
  import opened FilterLanguage
  import opened Sorting
  import opened CsvProcessor
  import Strings

  /** The output header is the header projected through sorted positions of
      the selected names; each further output row is an input row the
      filters accept, tested against the FULL input header, projected
      through the same positions, in input order; and every accepted row
      is there. `idx` and `kept` are those positions. */
  lemma ProcessShape(t: Table, selected: string, rowFilters: string) returns (idx: seq<nat>, kept: seq<nat>)
    requires Process(t, selected, rowFilters).Success?
    ensures ParseFilters(rowFilters).Success?
    ensures forall k :: 0 <= k < |SelectionList(selected, t.header)| ==> SelectionList(selected, t.header)[k] in t.header
    ensures Sorted(idx) && multiset(idx) == multiset(Positions(SelectionList(selected, t.header), t.header))
    ensures forall k :: 0 <= k < |idx| ==> idx[k] < |t.header|
    ensures Process(t, selected, rowFilters).value[0] == Project(t.header, idx)
    ensures StrictlyIncreasing(kept) && forall j :: 0 <= j < |kept| ==> kept[j] < |t.rows|
    ensures |Process(t, selected, rowFilters).value| == |kept| + 1
    ensures forall j :: 0 <= j < |kept| ==>
              (forall k :: 0 <= k < |idx| ==> idx[k] < |t.rows[kept[j]]|)
              && Process(t, selected, rowFilters).value[j + 1] == Project(t.rows[kept[j]], idx)
    ensures forall i {:trigger i in kept} :: 0 <= i < |t.rows| ==>
              (i in kept <==> ApplyFilters(t.rows[i], t.header, ParseFilters(rowFilters).value) == Success(true))
  {
    var filters := ParseFilters(rowFilters).value;
    idx := SelectIndices(SelectionList(selected, t.header), t.header).value;
    assert Process(t, selected, rowFilters) == Assemble(t, filters, idx);
    kept := AssembleShape(t, filters, idx);
  }

  /** The assembled table: the projected header, then the projections of
      the accepted rows in input order. */
  lemma AssembleShape(t: Table, filters: seq<Filter>, idx: seq<nat>) returns (kept: seq<nat>)
    requires forall k :: 0 <= k < |idx| ==> idx[k] < |t.header|
    requires Assemble(t, filters, idx).Success?
    ensures Assemble(t, filters, idx).value[0] == Project(t.header, idx)
    ensures StrictlyIncreasing(kept) && forall j :: 0 <= j < |kept| ==> kept[j] < |t.rows|
    ensures |Assemble(t, filters, idx).value| == |kept| + 1
    ensures forall j :: 0 <= j < |kept| ==>
              (forall k :: 0 <= k < |idx| ==> idx[k] < |t.rows[kept[j]]|)
              && Assemble(t, filters, idx).value[j + 1] == Project(t.rows[kept[j]], idx)
    ensures forall i {:trigger i in kept} :: 0 <= i < |t.rows| ==>
              (i in kept <==> ApplyFilters(t.rows[i], t.header, filters) == Success(true))
  {
    var test := RowTest(t.header, filters);
    var rows := FilterRows(t.rows, test).value;
    var body := ProjectRows(rows, idx).value;
    assert Assemble(t, filters, idx).value == [Project(t.header, idx)] + body;
    kept := FilterRowsKeepsOrder(t.rows, test);
    forall j | 0 <= j < |kept|
      ensures (forall k :: 0 <= k < |idx| ==> idx[k] < |t.rows[kept[j]]|)
      ensures Assemble(t, filters, idx).value[j + 1] == Project(t.rows[kept[j]], idx)
    {
      assert rows[j] == t.rows[kept[j]];
      assert body[j] == Project(rows[j], idx);
    }
  }

  /** Every row the test accepts reaches every position. */
  predicate AcceptedRowsReach(rows: seq<Row>, test: Row -> Result<bool, Error>, idx: seq<nat>)
  {
    forall i, k :: 0 <= i < |rows| && 0 <= k < |idx| && test(rows[i]) == Success(true) ==> idx[k] < |rows[i]|
  }

  /** Every row the filters accept reaches the column of every selected name. */
  predicate AcceptedRowsReachNames(t: Table, filters: seq<Filter>, cols: seq<string>)
    requires forall m :: 0 <= m < |cols| ==> cols[m] in t.header
  {
    forall i, m :: 0 <= i < |t.rows| && 0 <= m < |cols| && ApplyFilters(t.rows[i], t.header, filters) == Success(true)
                   ==> IndexOf(t.header, cols[m]) < |t.rows[i]|
  }

  /** Only one row can be the first whose test raises an error. */
  lemma FirstErrorRowUnique(rows: seq<Row>, test: Row -> Result<bool, Error>, i: nat, i': nat)
    requires FirstErrorRow(rows, test, i) && FirstErrorRow(rows, test, i')
    ensures i == i'
  {
  }

  /** The row stage once the filters and sorted positions are known: the
      first row whose filters raise an error stops it with that error; when
      every row is tested without error, it fails with RowTooShort exactly
      when an accepted row is too short for a position. */
  lemma AssembleOutcome(t: Table, filters: seq<Filter>, idx: seq<nat>)
    requires forall k :: 0 <= k < |idx| ==> idx[k] < |t.header|
    ensures !AllEvaluate(t.rows, RowTest(t.header, filters)) ==>
              exists i: nat :: FirstErrorRow(t.rows, RowTest(t.header, filters), i)
    ensures forall i: nat :: FirstErrorRow(t.rows, RowTest(t.header, filters), i) ==>
              Assemble(t, filters, idx) == Failure(ApplyFilters(t.rows[i], t.header, filters).error)
    ensures AllEvaluate(t.rows, RowTest(t.header, filters)) ==>
              (Assemble(t, filters, idx).Success? <==> AcceptedRowsReach(t.rows, RowTest(t.header, filters), idx))
    ensures AllEvaluate(t.rows, RowTest(t.header, filters)) && Assemble(t, filters, idx).Failure? ==>
              Assemble(t, filters, idx).error == RowTooShort
  {
    var test := RowTest(t.header, filters);
    var fr := FilterRows(t.rows, test);
    if fr.Failure? {
      FilterRowsFirstError(t.rows, test);
      var i0: nat :| FirstErrorRow(t.rows, test, i0) && test(t.rows[i0]).error == fr.error;
      forall i: nat | FirstErrorRow(t.rows, test, i)
        ensures Assemble(t, filters, idx) == Failure(ApplyFilters(t.rows[i], t.header, filters).error)
      {
        FirstErrorRowUnique(t.rows, test, i, i0);
      }
    } else {
      var kept := FilterRowsKeepsOrder(t.rows, test);
      var rows := fr.value;
      if AcceptedRowsReach(t.rows, test, idx) {
        forall j, k | 0 <= j < |rows| && 0 <= k < |idx| ensures idx[k] < |rows[j]| {
          assert rows[j] == t.rows[kept[j]];
          assert kept[j] in kept;
        }
      }
      if ProjectRows(rows, idx).Success? {
        forall i, k | 0 <= i < |t.rows| && 0 <= k < |idx| && test(t.rows[i]) == Success(true)
          ensures idx[k] < |t.rows[i]|
        {
          assert i in kept;
          var j :| 0 <= j < |kept| && kept[j] == i;
          assert rows[j] == t.rows[i];
        }
      }
    }
  }

  /** Reaching every position depends only on which positions there are,
      not on their order or how often each occurs. */
  lemma ReachSamePositions(rows: seq<Row>, test: Row -> Result<bool, Error>, idx: seq<nat>, ps: seq<nat>)
    requires multiset(idx) == multiset(ps)
    ensures AcceptedRowsReach(rows, test, idx) <==> AcceptedRowsReach(rows, test, ps)
  {
    if AcceptedRowsReach(rows, test, idx) {
      forall i, m | 0 <= i < |rows| && 0 <= m < |ps| && test(rows[i]) == Success(true) ensures ps[m] < |rows[i]| {
        assert ps[m] in multiset(idx);
      }
    }
    if AcceptedRowsReach(rows, test, ps) {
      forall i, k | 0 <= i < |rows| && 0 <= k < |idx| && test(rows[i]) == Success(true) ensures idx[k] < |rows[i]| {
        assert idx[k] in multiset(ps);
      }
    }
  }

  /** Reaching the looked-up positions is reaching each selected name's column. */
  lemma ReachNames(t: Table, filters: seq<Filter>, cols: seq<string>)
    requires forall m :: 0 <= m < |cols| ==> cols[m] in t.header
    ensures AcceptedRowsReach(t.rows, RowTest(t.header, filters), Positions(cols, t.header))
            <==> AcceptedRowsReachNames(t, filters, cols)
  {
    var test := RowTest(t.header, filters);
    assert forall i :: 0 <= i < |t.rows| ==> test(t.rows[i]) == ApplyFilters(t.rows[i], t.header, filters);
  }

  /** The row stage of a run whose filter lines and selected names are
      valid: the first row whose filters raise an error (an unknown header,
      a row too short for a filter's column, an operator that is none of
      the six) stops the run with that error; with no such row, the run
      succeeds exactly when every accepted row reaches every selected
      column, and fails with RowTooShort otherwise. */
  lemma RowStageOutcome(t: Table, selected: string, rowFilters: string)
    requires ParseFilters(rowFilters).Success?
    requires forall m :: 0 <= m < |SelectionList(selected, t.header)| ==> SelectionList(selected, t.header)[m] in t.header
    ensures forall i: nat :: FirstErrorRow(t.rows, RowTest(t.header, ParseFilters(rowFilters).value), i) ==>
              Process(t, selected, rowFilters) == Failure(ApplyFilters(t.rows[i], t.header, ParseFilters(rowFilters).value).error)
    ensures AllEvaluate(t.rows, RowTest(t.header, ParseFilters(rowFilters).value)) ==>
              (Process(t, selected, rowFilters).Success? <==>
                 AcceptedRowsReachNames(t, ParseFilters(rowFilters).value, SelectionList(selected, t.header)))
    ensures AllEvaluate(t.rows, RowTest(t.header, ParseFilters(rowFilters).value)) && Process(t, selected, rowFilters).Failure? ==>
              Process(t, selected, rowFilters).error == RowTooShort
  {
    var filters := ParseFilters(rowFilters).value;
    var cols := SelectionList(selected, t.header);
    var idx := SelectIndices(cols, t.header).value;
    assert Process(t, selected, rowFilters) == Assemble(t, filters, idx);
    AssembleOutcome(t, filters, idx);
    ReachSamePositions(t.rows, RowTest(t.header, filters), idx, Positions(cols, t.header));
    ReachNames(t, filters, cols);
  }

  /** The row stage of `process_csv_data` on text: the same outcomes as
      `RowStageOutcome`, for the table the text reads as. */
  lemma RowStageOutcomeOnText(csv: string, t: Table, selected: string, rowFilters: string)
    requires ParseTable(csv) == Success(t)
    requires ParseFilters(rowFilters).Success?
    requires forall m :: 0 <= m < |SelectionList(selected, t.header)| ==> SelectionList(selected, t.header)[m] in t.header
    ensures forall i: nat :: FirstErrorRow(t.rows, RowTest(t.header, ParseFilters(rowFilters).value), i) ==>
              ProcessCsvData(csv, selected, rowFilters) == Failure(ApplyFilters(t.rows[i], t.header, ParseFilters(rowFilters).value).error)
    ensures AllEvaluate(t.rows, RowTest(t.header, ParseFilters(rowFilters).value)) ==>
              (ProcessCsvData(csv, selected, rowFilters).Success? <==>
                 AcceptedRowsReachNames(t, ParseFilters(rowFilters).value, SelectionList(selected, t.header)))
    ensures AllEvaluate(t.rows, RowTest(t.header, ParseFilters(rowFilters).value)) && ProcessCsvData(csv, selected, rowFilters).Failure? ==>
              ProcessCsvData(csv, selected, rowFilters).error == RowTooShort
  {
    RowStageOutcome(t, selected, rowFilters);
  }

  /** A first filter naming a column the header lacks fails the whole run
      with UnknownFilterHeader as soon as there is a data row, whether or
      not that column is selected. */
  lemma UnknownFilterHeaderStops(csv: string, t: Table, selected: string, rowFilters: string)
    requires ParseTable(csv) == Success(t) && |t.rows| > 0
    requires ParseFilters(rowFilters).Success? && |ParseFilters(rowFilters).value| > 0
    requires ParseFilters(rowFilters).value[0].header !in t.header
    requires forall m :: 0 <= m < |SelectionList(selected, t.header)| ==> SelectionList(selected, t.header)[m] in t.header
    ensures ProcessCsvData(csv, selected, rowFilters) == Failure(UnknownFilterHeader(ParseFilters(rowFilters).value[0].header))
  {
    var filters := ParseFilters(rowFilters).value;
    assert ApplyFilters(t.rows[0], t.header, filters) == Failure(UnknownFilterHeader(filters[0].header));
    assert FirstErrorRow(t.rows, RowTest(t.header, filters), 0);
    RowStageOutcomeOnText(csv, t, selected, rowFilters);
  }

  /** Errors come in the source's order: a bad filter line first, then the
      first selected name missing from the header, before any row is
      looked at, so no output is produced in either case. */
  lemma ErrorPrecedence(t: Table, selected: string, rowFilters: string)
    ensures ParseFilters(rowFilters).Failure? ==>
              Process(t, selected, rowFilters) == Failure(ParseFilters(rowFilters).error)
    ensures ParseFilters(rowFilters).Success? ==>
              forall k: nat :: FirstMissing(SelectionList(selected, t.header), t.header, k) ==>
                Process(t, selected, rowFilters) == Failure(HeaderNotFound(SelectionList(selected, t.header)[k]))
  {
    var cols := SelectionList(selected, t.header);
    forall k: nat | FirstMissing(cols, t.header, k) && ParseFilters(rowFilters).Success?
      ensures Process(t, selected, rowFilters) == Failure(HeaderNotFound(cols[k]))
    {
      var r := SelectIndices(cols, t.header);
      var k': nat :| FirstMissing(cols, t.header, k') && r.error == HeaderNotFound(cols[k']);
      FirstMissingUnique(cols, t.header, k, k');
    }
  }

  lemma FirstMissingUnique(cols: seq<string>, headers: Row, k: nat, k': nat)
    requires FirstMissing(cols, headers, k) && FirstMissing(cols, headers, k')
    ensures k == k'
  {
  }

  /** Two non-empty selections naming the same columns equally often, in
      any order, give the same result; they can differ only in which
      missing name the error reports. */
  lemma SelectionOrderIsDiscarded(t: Table, s1: string, s2: string, rowFilters: string)
    requires s1 != "" && s2 != ""
    requires multiset(Strings.Split(s1, ',')) == multiset(Strings.Split(s2, ','))
    ensures Process(t, s1, rowFilters) == Process(t, s2, rowFilters)
            || (Process(t, s1, rowFilters).Failure? && Process(t, s1, rowFilters).error.HeaderNotFound?
                && Process(t, s2, rowFilters).Failure? && Process(t, s2, rowFilters).error.HeaderNotFound?)
  {
    var c1 := SelectionList(s1, t.header);
    var c2 := SelectionList(s2, t.header);
    if ParseFilters(rowFilters).Success? {
      var r1 := SelectIndices(c1, t.header);
      var r2 := SelectIndices(c2, t.header);
      if r1.Success? {
        PositionsIgnoreOrder(c1, c2, t.header);
        SortedUnique(r1.value, r2.value);
        assert Process(t, s1, rowFilters) == Assemble(t, ParseFilters(rowFilters).value, r1.value);
        assert Process(t, s2, rowFilters) == Assemble(t, ParseFilters(rowFilters).value, r2.value);
      } else if r2.Success? {
        PositionsIgnoreOrder(c2, c1, t.header);
      }
    }
  }

  /** Without data rows the filters are parsed but never evaluated: an
      unknown header or an operator that is none of the six goes
      unreported, and the output is the selected header alone. */
  lemma FiltersUnevaluatedWithoutRows(t: Table, selected: string, rowFilters: string)
    requires t.rows == []
    ensures Process(t, selected, rowFilters).Success? <==>
              ParseFilters(rowFilters).Success?
              && forall k :: 0 <= k < |SelectionList(selected, t.header)| ==> SelectionList(selected, t.header)[k] in t.header
    ensures Process(t, selected, rowFilters).Success? ==> |Process(t, selected, rowFilters).value| == 1
  {
  }

  /** No header name occurs twice. */
  predicate Distinct(names: Row)
  {
    forall i, j :: 0 <= i < j < |names| ==> names[i] != names[j]
  }

  /** 0, 1, ..., n - 1. */
  function Range(n: nat): (r: seq<nat>)
    ensures |r| == n && forall k :: 0 <= k < n ==> r[k] == k
  {
    seq(n, k requires 0 <= k < n => k)
  }

  /** With distinct header names, the empty selection keeps every column
      in place. */
  lemma EmptySelectionKeepsAllColumns(headers: Row)
    requires Distinct(headers)
    ensures SelectIndices(SelectionList("", headers), headers) == Success(Range(|headers|))
    ensures Project(headers, Range(|headers|)) == headers
  {
    assert forall k :: 0 <= k < |headers| ==> headers[k] in headers;
    var r := SelectIndices(headers, headers);
    PositionsOfDistinct(headers);
    SortedUnique(r.value, Range(|headers|));
  }

  /** Looking up every name of a distinct header gives 0, ..., n - 1. */
  lemma PositionsOfDistinct(headers: Row)
    requires Distinct(headers)
    requires forall k :: 0 <= k < |headers| ==> headers[k] in headers
    ensures Positions(headers, headers) == Range(|headers|)
  {
    forall k | 0 <= k < |headers| ensures Positions(headers, headers)[k] == k {
      IndexOfDistinct(headers, k);
    }
  }

  /** In a header without duplicates each name is found at its own place. */
  lemma IndexOfDistinct(names: Row, i: nat)
    requires Distinct(names) && i < |names|
    ensures IndexOf(names, names[i]) == i
  {
    var j := IndexOf(names, names[i]);
    assert names[j] == names[i];
  }

  /** With distinct header names, selecting the names at sorted positions
      selects exactly those positions: looking names up undoes projecting
      the header. */
  lemma SelectionInHeaderOrder(headers: Row, idx: seq<nat>)
    requires Distinct(headers)
    requires forall k :: 0 <= k < |idx| ==> idx[k] < |headers|
    requires Sorted(idx)
    ensures SelectIndices(Project(headers, idx), headers) == Success(idx)
  {
    var cols := Project(headers, idx);
    assert forall k :: 0 <= k < |cols| ==> cols[k] in headers;
    assert Positions(cols, headers) == idx by {
      forall k | 0 <= k < |idx| ensures Positions(cols, headers)[k] == idx[k] {
        var p := Positions(cols, headers)[k];
        assert headers[p] == headers[idx[k]];
      }
    }
    var r := SelectIndices(cols, headers);
    SortedUnique(r.value, idx);
  }

  /** Filters that accept every row keep every row. */
  lemma {:induction false} FilterRowsKeepsAll(rows: seq<Row>, test: Row -> Result<bool, Error>)
    requires forall i :: 0 <= i < |rows| ==> test(rows[i]) == Success(true)
    ensures FilterRows(rows, test) == Success(rows)
    decreases |rows|
  {
    if |rows| > 0 {
      FilterRowsKeepsAll(rows[1..], test);
      assert rows == [rows[0]] + rows[1..];
    }
  }

  /** The rows whose verdict is true, in order: what the filtering list
      comprehension keeps once every verdict is known. */
  function Kept(rows: seq<Row>, verdicts: seq<bool>): seq<Row>
    requires |rows| == |verdicts|
    decreases |rows|
  {
    if |rows| == 0 then [] else (if verdicts[0] then [rows[0]] else []) + Kept(rows[1..], verdicts[1..])
  }

  /** When every row's test succeeds, filtering keeps exactly the rows whose
      verdict is true, in input order. */
  lemma {:induction false} FilterRowsByVerdicts(rows: seq<Row>, test: Row -> Result<bool, Error>, verdicts: seq<bool>)
    requires |rows| == |verdicts|
    requires forall k :: 0 <= k < |rows| ==> test(rows[k]) == Success(verdicts[k])
    ensures FilterRows(rows, test) == Success(Kept(rows, verdicts))
    decreases |rows|
  {
    if |rows| > 0 {
      assert forall k :: 0 <= k < |rows| - 1 ==> rows[1..][k] == rows[k + 1] && verdicts[1..][k] == verdicts[k + 1];
      FilterRowsByVerdicts(rows[1..], test, verdicts[1..]);
      var rest := Kept(rows[1..], verdicts[1..]);
      if !verdicts[0] {
        assert Kept(rows, verdicts) == rest;
      }
    }
  }

  /** The empty filter string keeps every data row, in order. */
  lemma EmptyFiltersKeepAllRows(rows: seq<Row>, headers: Row)
    ensures ParseFilters("") == Success([])
    ensures FilterRows(rows, RowTest(headers, [])) == Success(rows)
  {
    FilterRowsKeepsAll(rows, RowTest(headers, []));
  }

  /** Projecting a row of width `n` through 0, ..., n - 1 changes nothing. */
  lemma ProjectAll(row: Row)
    ensures Project(row, Range(|row|)) == row
  {
  }

  /** Projecting rows of width `n` through 0, ..., n - 1 changes nothing. */
  lemma {:induction false} ProjectAllColumns(rows: seq<Row>, n: nat)
    requires forall i :: 0 <= i < |rows| ==> |rows[i]| == n
    ensures ProjectRows(rows, Range(n)) == Success(rows)
    decreases |rows|
  {
    if |rows| > 0 {
      ProjectAllColumns(rows[1..], n);
      ProjectAll(rows[0]);
      assert rows == [rows[0]] + rows[1..];
    }
  }

  /** A table with distinct header names and rows as wide as the header,
      processed with an empty selection and no filters, comes out as
      itself. */
  lemma EmptySelectionAndFiltersKeepTable(t: Table)
    requires Distinct(t.header)
    requires forall i :: 0 <= i < |t.rows| ==> |t.rows[i]| == |t.header|
    ensures Process(t, "", "") == Success([t.header] + t.rows)
  {
    EmptySelectionKeepsAllColumns(t.header);
    EmptyFiltersKeepAllRows(t.rows, t.header);
    ProjectAllColumns(t.rows, |t.header|);
    assert Process(t, "", "") == Assemble(t, [], Range(|t.header|));
  }

  /** A rectangular table of plain fields with distinct, non-empty header
      names, written as CSV text and processed with an empty selection and
      no filters, comes back as the same text. */
  lemma EmptySelectionAndFiltersIsIdentity(header: Row, rows: seq<Row>)
    requires |header| > 0 && PlainRecord(header) && Distinct(header)
    requires forall i :: 0 <= i < |rows| ==> |rows[i]| == |header| && PlainRecord(rows[i])
    ensures ProcessCsvData(Render([header] + rows), "", "") == Success(Render([header] + rows))
  {
    ParseRenderTable(header, rows);
    EmptySelectionAndFiltersKeepTable(Table(header, rows));
  }

  /** The fields of parsed CSV text never contain a newline. */
  lemma ParsedFieldsHaveNoNewline(text: string)
    requires ParseTable(text).Success?
    ensures forall k :: 0 <= k < |ParseTable(text).value.header| ==> '\n' !in ParseTable(text).value.header[k]
    ensures forall i, k :: 0 <= i < |ParseTable(text).value.rows| && 0 <= k < |ParseTable(text).value.rows[i]| ==>
              '\n' !in ParseTable(text).value.rows[i][k]
  {
    var lines := SplitLines(text);
    forall i | 0 <= i < |lines| ensures forall k :: 0 <= k < |ParseRecord(lines[i])| ==> '\n' !in ParseRecord(lines[i])[k] {
      if lines[i] != "" {
        SplitKeepsOut(lines[i], ',', '\n');
      }
    }
    var t := ParseTable(text).value;
    assert t.header == ParseRecord(lines[0]);
    forall i | 0 <= i < |t.rows| ensures t.rows[i] == ParseRecord(lines[i + 1]) {
    }
  }

  /** The output text has exactly one line per output record, header
      included: the records are joined with `\n` and nothing follows the
      last one. */
  lemma OutputLines(csv: string, selected: string, rowFilters: string)
    requires ProcessCsvData(csv, selected, rowFilters).Success?
    ensures Strings.Split(ProcessCsvData(csv, selected, rowFilters).value, '\n')
            == RenderLines(Process(ParseTable(csv).value, selected, rowFilters).value)
  {
    var t := ParseTable(csv).value;
    var out := Process(t, selected, rowFilters).value;
    ParsedFieldsHaveNoNewline(csv);
    var idx, kept := ProcessShape(t, selected, rowFilters);
    forall j | 0 <= j < |out| ensures '\n' !in RenderLines(out)[j] {
      if j == 0 {
        assert out[0] == Project(t.header, idx);
      } else {
        assert out[j] == Project(t.rows[kept[j - 1]], idx);
      }
      RenderRecordHasNoNewline(out[j]);
    }
    Strings.SplitJoin(RenderLines(out), '\n');
  }
}
