/** The concrete runs the repository checks: the five cases of its C test
    suite and the error cases of the demo at the end of the Python module,
    each derived from the model one stage at a time. Long texts are written
    as their lines joined with "\n", which is the same string. */
module Scenarios {
  import Strings
  import Lexicographic
  import opened Wrappers
  import opened CsvTable
  import opened FilterLanguage
  import opened Sorting
  import opened CsvProcessor
  import opened ProcessorProperties

  // ---------------------------------------------------------------------
  // Composing the stages

  lemma JoinTwo(a: string, b: string, sep: char)
    ensures Strings.Join([a, b], sep) == a + [sep] + b
  {
  }

  lemma JoinThree(a: string, b: string, c: string, sep: char)
    ensures Strings.Join([a, b, c], sep) == a + [sep] + b + [sep] + c
  {
    Strings.JoinAppend([a, b], [c], sep);
    assert [a, b] + [c] == [a, b, c];
  }

  lemma JoinFive(a: string, b: string, c: string, d: string, e: string, sep: char)
    ensures Strings.Join([a, b, c, d, e], sep) == a + [sep] + b + [sep] + c + [sep] + d + [sep] + e
  {
    JoinThree(a, b, c, sep);
    Strings.JoinAppend([a, b, c], [d], sep);
    assert [a, b, c] + [d] == [a, b, c, d];
    Strings.JoinAppend([a, b, c, d], [e], sep);
    assert [a, b, c, d] + [e] == [a, b, c, d, e];
  }

  /** A record of seven fields rendered from the renderings of its first
      four and last three fields. */
  lemma RecordFromHalves(fields: Row, left: string, right: string, whole: string)
    requires |fields| == 7
    requires RenderRecord(fields[..4]) == left && RenderRecord(fields[4..]) == right
    requires left + "," + right == whole
    ensures RenderRecord(fields) == whole
  {
    Strings.JoinAppend(fields[..4], fields[4..], ',');
    assert fields[..4] + fields[4..] == fields;
  }

  /** A rendering is fixed by the rendering of each record. */
  lemma RenderFrom(records: seq<Row>, lines: seq<string>, text: string)
    requires |records| == |lines|
    requires forall k :: 0 <= k < |lines| ==> RenderRecord(records[k]) == lines[k]
    requires Strings.Join(lines, '\n') == text
    ensures Render(records) == text
  {
    assert RenderLines(records) == lines;
  }

  lemma ProjectIs(row: Row, idx: seq<nat>, out: Row)
    requires forall k :: 0 <= k < |idx| ==> idx[k] < |row|
    requires |out| == |idx| && forall k :: 0 <= k < |idx| ==> out[k] == row[idx[k]]
    ensures Project(row, idx) == out
  {
  }

  lemma ProjectRowsIs(rows: seq<Row>, idx: seq<nat>, out: seq<Row>)
    requires forall i, k :: 0 <= i < |rows| && 0 <= k < |idx| ==> idx[k] < |rows[i]|
    requires |out| == |rows| && forall i :: 0 <= i < |rows| ==> |out[i]| == |idx|
    requires forall i, k :: 0 <= i < |rows| && 0 <= k < |idx| ==> out[i][k] == rows[i][idx[k]]
    ensures ProjectRows(rows, idx) == Success(out)
  {
    var r := ProjectRows(rows, idx);
    assert r.Success?;
    forall i | 0 <= i < |rows| ensures r.value[i] == out[i] {
      assert forall k :: 0 <= k < |idx| ==> r.value[i][k] == rows[i][idx[k]] == out[i][k];
    }
    assert r.value == out;
  }

  /** Separator-free names joined with ',' select exactly those names. */
  lemma SelectionIs(selected: string, headers: Row, names: seq<string>)
    requires |names| > 0 && forall k :: 0 <= k < |names| ==> ',' !in names[k]
    requires Strings.Join(names, ',') == selected && selected != ""
    ensures SelectionList(selected, headers) == names
  {
    Strings.SplitJoin(names, ',');
  }

  /** The selection is the sorted arrangement of the looked-up positions. */
  lemma SelectIndicesIs(cols: seq<string>, headers: Row, idx: seq<nat>)
    requires forall k :: 0 <= k < |cols| ==> cols[k] in headers
    requires multiset(Positions(cols, headers)) == multiset(idx)
    requires Sorted(idx)
    ensures SelectIndices(cols, headers) == Success(idx)
  {
    var r := SelectIndices(cols, headers);
    SortedUnique(r.value, idx);
  }

  /** Filter lines that are each the greedy match of their filter parse
      back to those filters. */
  lemma ParsedFiltersFrom(text: string, lines: seq<string>, filters: seq<Filter>)
    requires |filters| > 0 && |lines| == |filters|
    requires forall k :: 0 <= k < |filters| ==> RenderFilter(filters[k]) == lines[k]
    requires forall k :: 0 <= k < |filters| ==> IsGreedyMatch(lines[k], filters[k]) && '\n' !in filters[k].value
    requires Strings.Join(lines, '\n') == text
    ensures ParseFilters(text) == Success(filters)
  {
    assert seq(|filters|, k requires 0 <= k < |filters| => RenderFilter(filters[k])) == lines;
    ParseFiltersRoundTrip(filters);
  }

  lemma KeptCons(row: Row, rows: seq<Row>, v: bool, vs: seq<bool>)
    requires |rows| == |vs|
    ensures Kept([row] + rows, [v] + vs) == (if v then [row] else []) + Kept(rows, vs)
  {
    assert ([row] + rows)[1..] == rows && ([v] + vs)[1..] == vs;
  }

  /** The rows kept from the verdicts of every row. */
  lemma KeptFrom(t: Table, filters: seq<Filter>, verdicts: seq<bool>, kept: seq<Row>)
    requires |verdicts| == |t.rows|
    requires forall k :: 0 <= k < |t.rows| ==> ApplyFilters(t.rows[k], t.header, filters) == Success(verdicts[k])
    requires Kept(t.rows, verdicts) == kept
    ensures FilterRows(t.rows, RowTest(t.header, filters)) == Success(kept)
  {
    FilterRowsByVerdicts(t.rows, RowTest(t.header, filters), verdicts);
  }

  /** `Process` from facts about each of its stages. */
  lemma ProcessFrom(t: Table, selected: string, rowFilters: string, filters: seq<Filter>, idx: seq<nat>,
                    kept: seq<Row>, header: Row, body: seq<Row>)
    requires ParseFilters(rowFilters) == Success(filters)
    requires SelectIndices(SelectionList(selected, t.header), t.header) == Success(idx)
    requires FilterRows(t.rows, RowTest(t.header, filters)) == Success(kept)
    requires ProjectRows(kept, idx) == Success(body)
    requires Project(t.header, idx) == header
    ensures Process(t, selected, rowFilters) == Success([header] + body)
  {
  }

  /** `ProcessCsvData` from the parsed table and its processing. */
  lemma ProcessCsvDataFrom(csv: string, selected: string, rowFilters: string, t: Table, out: seq<Row>, text: string)
    requires ParseTable(csv) == Success(t)
    requires Process(t, selected, rowFilters) == Success(out)
    requires Render(out) == text
    ensures ProcessCsvData(csv, selected, rowFilters) == Success(text)
  {
  }

  // ---------------------------------------------------------------------
  // The three-column table of test_libcsv.c

  const H3: Row := ["header1", "header2", "header3"]
  const Rows3: seq<Row> := [["1", "2", "3"], ["4", "5", "6"], ["7", "8", "9"]]
  const T3: Table := Table(H3, Rows3)
  const Lines3: seq<string> := ["header1,header2,header3", "1,2,3", "4,5,6", "7,8,9"]
  const Csv3: string := "header1,header2,header3" + "\n" + "1,2,3" + "\n" + "4,5,6" + "\n" + "7,8,9"

  lemma RecordH3() ensures RenderRecord(["header1", "header2", "header3"]) == "header1,header2,header3" {
    JoinThree("header1", "header2", "header3", ',');
  }
  lemma RecordDigits(a: char, b: char, c: char) ensures RenderRecord([[a], [b], [c]]) == [a, ',', b, ',', c] {
    JoinThree([a], [b], [c], ',');
  }

  lemma Records3() ensures forall k :: 0 <= k < |Lines3| ==> RenderRecord(([H3] + Rows3)[k]) == Lines3[k] {
    RecordH3();
    RecordDigits('1', '2', '3'); RecordDigits('4', '5', '6'); RecordDigits('7', '8', '9');
    assert [H3] + Rows3 == [H3, ["1", "2", "3"], ["4", "5", "6"], ["7", "8", "9"]];
  }

  lemma Rendered3() ensures Render([H3] + Rows3) == Csv3 {
    Records3();
    JoinThree("header1,header2,header3", "1,2,3", "4,5,6", '\n');
    Strings.JoinAppend(["header1,header2,header3", "1,2,3", "4,5,6"], ["7,8,9"], '\n');
    assert Lines3 == ["header1,header2,header3", "1,2,3", "4,5,6"] + ["7,8,9"];
    RenderFrom([H3] + Rows3, Lines3, Csv3);
  }

  lemma Plain3() ensures PlainRecord(H3) && forall k :: 0 <= k < |Rows3| ==> |Rows3[k]| == |H3| && PlainRecord(Rows3[k]) {
  }

  lemma Parsed3() ensures ParseTable(Csv3) == Success(T3) {
    Rendered3(); Plain3();
    ParseRenderTable(H3, Rows3);
  }

  /** test_processCsv_no_filter: no selection and no filters write the
      table back unchanged. */
  lemma ProcessCsvNoFilter() ensures ProcessCsvData(Csv3, "", "") == Success(Csv3) {
    Rendered3(); Plain3();
    assert Distinct(H3);
    EmptySelectionAndFiltersIsIdentity(H3, Rows3);
  }

  // test_processCsv_with_filters: "header3,header1" and "header1>1\nheader3<9".

  const SelB: string := "header3,header1"
  const NamesB: seq<string> := ["header3", "header1"]
  const IdxB: seq<nat> := [0, 2]
  const FilterTextB: string := "header1>1" + "\n" + "header3<9"
  const FilterLinesB: seq<string> := ["header1>1", "header3<9"]
  const FiltersB: seq<Filter> := [Filter("header1", ">", "1"), Filter("header3", "<", "9")]
  const VerdictsB: seq<bool> := [false, true, false]
  const KeptB: seq<Row> := [["4", "5", "6"]]
  const HeaderB: Row := ["header1", "header3"]
  const BodyB: seq<Row> := [["4", "6"]]
  const OutTextB: string := "header1,header3" + "\n" + "4,6"

  lemma ParsedFiltersB() ensures ParseFilters(FilterTextB) == Success(FiltersB) {
    assert AllIn("header1", Word) && AllIn("header3", Word);
    ParsedFiltersFrom(FilterTextB, FilterLinesB, FiltersB);
  }

  lemma SelectionB() ensures SelectionList(SelB, H3) == NamesB {
    SelectionIs(SelB, H3, NamesB);
  }
  lemma PositionsB() ensures multiset(Positions(NamesB, H3)) == multiset(IdxB) {
    var ps := Positions(NamesB, H3);
    assert Distinct(H3);
    IndexOfDistinct(H3, 2);
    IndexOfDistinct(H3, 0);
    assert NamesB[0] == H3[2] && NamesB[1] == H3[0];
    assert ps == [2, 0];
  }
  lemma IndicesOfNamesB() ensures SelectIndices(NamesB, H3) == Success(IdxB) {
    PositionsB();
    SelectIndicesIs(NamesB, H3, IdxB);
  }
  lemma IndicesB() ensures SelectIndices(SelectionList(SelB, H3), H3) == Success(IdxB) {
    SelectionB(); IndicesOfNamesB();
  }

  lemma VerdictsOfB() ensures forall k :: 0 <= k < |Rows3| ==> ApplyFilters(Rows3[k], H3, FiltersB) == Success(VerdictsB[k]) {
    forall k | 0 <= k < |Rows3| ensures ApplyFilters(Rows3[k], H3, FiltersB) == Success(VerdictsB[k]) {
      if k == 0 {
        RowB1();
      } else if k == 1 {
        RowB2();
      } else {
        RowB3();
      }
    }
  }

  lemma ColumnsB() ensures IndexOf(H3, "header1") == 0 && IndexOf(H3, "header3") == 2 {
    assert Distinct(H3);
    IndexOfDistinct(H3, 0);
    IndexOfDistinct(H3, 2);
  }
  lemma RowB1() ensures ApplyFilters(["1", "2", "3"], H3, FiltersB) == Success(false) {
    ColumnsB();
  }
  lemma RowB2() ensures ApplyFilters(["4", "5", "6"], H3, FiltersB) == Success(true) {
    ColumnsB();
  }
  lemma RowB3() ensures ApplyFilters(["7", "8", "9"], H3, FiltersB) == Success(false) {
    ColumnsB();
  }

  lemma FilteredB() ensures FilterRows(Rows3, RowTest(H3, FiltersB)) == Success(KeptB) {
    VerdictsOfB();
    assert Kept(Rows3, VerdictsB) == KeptB;
    KeptFrom(T3, FiltersB, VerdictsB, KeptB);
  }

  lemma ProjectedB() ensures ProjectRows(KeptB, IdxB) == Success(BodyB) && Project(H3, IdxB) == HeaderB {
    ProjectRowsIs(KeptB, IdxB, BodyB);
    ProjectIs(H3, IdxB, HeaderB);
  }

  lemma ProcessB() ensures Process(T3, SelB, FilterTextB) == Success([HeaderB] + BodyB) {
    ParsedFiltersB(); IndicesB(); FilteredB(); ProjectedB();
    ProcessFrom(T3, SelB, FilterTextB, FiltersB, IdxB, KeptB, HeaderB, BodyB);
  }

  lemma RenderedB() ensures Render([HeaderB] + BodyB) == OutTextB {
    assert RenderRecord(HeaderB) == "header1,header3";
    assert RenderRecord(["4", "6"]) == "4,6";
    RenderFrom([HeaderB] + BodyB, ["header1,header3", "4,6"], OutTextB);
  }

  /** test_processCsv_with_filters: the header comes out in table order,
      not in the order selected, and only "4,5,6" passes both filters. */
  lemma ProcessCsvWithFilters()
    ensures ProcessCsvData(Csv3, "header3,header1", "header1>1" + "\n" + "header3<9") == Success("header1,header3" + "\n" + "4,6")
  {
    Parsed3(); ProcessB(); RenderedB();
    ProcessCsvDataFrom(Csv3, SelB, FilterTextB, T3, [HeaderB] + BodyB, OutTextB);
  }

  // A filter on a column that is not selected: "header2" and "header1>1".

  const FiltersF: seq<Filter> := [Filter("header1", ">", "1")]
  const VerdictsF: seq<bool> := [false, true, true]
  const KeptF: seq<Row> := [["4", "5", "6"], ["7", "8", "9"]]
  const BodyF: seq<Row> := [["5"], ["8"]]
  const OutTextF: string := "header2" + "\n" + "5" + "\n" + "8"

  lemma ParsedFiltersF() ensures ParseFilters("header1>1") == Success(FiltersF) {
    assert AllIn("header1", Word);
    ParsedFiltersFrom("header1>1", ["header1>1"], FiltersF);
  }

  lemma SelectionF() ensures SelectionList("header2", H3) == ["header2"] {
    SelectionIs("header2", H3, ["header2"]);
  }
  lemma IndicesOfNamesF() ensures SelectIndices(["header2"], H3) == Success([1]) {
    assert Positions(["header2"], H3) == [1];
    SelectIndicesIs(["header2"], H3, [1]);
  }
  lemma IndicesF() ensures SelectIndices(SelectionList("header2", H3), H3) == Success([1]) {
    SelectionF(); IndicesOfNamesF();
  }

  lemma VerdictsOfF() ensures forall k :: 0 <= k < |Rows3| ==> ApplyFilters(Rows3[k], H3, FiltersF) == Success(VerdictsF[k]) {
    assert IndexOf(H3, "header1") == 0;
    assert ApplyFilters(Rows3[0], H3, FiltersF) == Success(false);
    assert ApplyFilters(Rows3[1], H3, FiltersF) == Success(true);
    assert ApplyFilters(Rows3[2], H3, FiltersF) == Success(true);
  }

  lemma FilteredF() ensures FilterRows(Rows3, RowTest(H3, FiltersF)) == Success(KeptF) {
    VerdictsOfF();
    assert Kept(Rows3, VerdictsF) == KeptF;
    KeptFrom(T3, FiltersF, VerdictsF, KeptF);
  }

  lemma ProjectedF() ensures ProjectRows(KeptF, [1]) == Success(BodyF) && Project(H3, [1]) == ["header2"] {
    ProjectRowsIs(KeptF, [1], BodyF);
    ProjectIs(H3, [1], ["header2"]);
  }

  lemma ProcessF() ensures Process(T3, "header2", "header1>1") == Success([["header2"]] + BodyF) {
    ParsedFiltersF(); IndicesF(); FilteredF(); ProjectedF();
    ProcessFrom(T3, "header2", "header1>1", FiltersF, [1], KeptF, ["header2"], BodyF);
  }

  lemma RenderedF() ensures Render([["header2"]] + BodyF) == OutTextF {
    assert RenderRecord(["header2"]) == "header2";
    assert RenderRecord(["5"]) == "5";
    assert RenderRecord(["8"]) == "8";
    JoinThree("header2", "5", "8", '\n');
    RenderFrom([["header2"]] + BodyF, ["header2", "5", "8"], OutTextF);
  }

  /** Filters are tested against the full input header, so a filter may
      name a column the output leaves out. */
  lemma FilterOnUnselectedColumn()
    ensures ProcessCsvData(Csv3, "header2", "header1>1") == Success("header2" + "\n" + "5" + "\n" + "8")
  {
    Parsed3(); ProcessF(); RenderedF();
    ProcessCsvDataFrom(Csv3, "header2", "header1>1", T3, [["header2"]] + BodyF, OutTextF);
  }

  // Case 4 of the demo: "header5,header7" is not in the header.

  const SelMissing: string := "header5,header7"
  const NamesMissing: seq<string> := ["header5", "header7"]

  /** A first selected name absent from the header is reported. */
  lemma FirstNameMissing(cols: seq<string>, headers: Row)
    requires |cols| > 0 && cols[0] !in headers
    ensures SelectIndices(cols, headers) == Failure(HeaderNotFound(cols[0]))
  {
    var r := SelectIndices(cols, headers);
    assert r.Failure?;
    var k: nat :| FirstMissing(cols, headers, k) && r.error == HeaderNotFound(cols[k]);
    FirstMissingUnique(cols, headers, k, 0);
  }

  lemma SelectionMissing() ensures SelectionList(SelMissing, H3) == NamesMissing {
    SelectionIs(SelMissing, H3, NamesMissing);
  }

  lemma HeaderLacksMissing() ensures |NamesMissing| > 0 && NamesMissing[0] !in H3 {
    assert NamesMissing[0] == "header5";
  }

  lemma IndicesMissing() ensures SelectIndices(SelectionList(SelMissing, H3), H3) == Failure(HeaderNotFound("header5")) {
    SelectionMissing();
    HeaderLacksMissing();
    FirstNameMissing(NamesMissing, H3);
  }

  /** The first selected name missing from the header is the one reported. */
  lemma MissingSelectedColumn()
    ensures ProcessCsvData(Csv3, SelMissing, FilterTextB) == Failure(HeaderNotFound("header5"))
  {
    Parsed3(); ParsedFiltersB(); IndicesMissing();
    assert Process(T3, SelMissing, FilterTextB) == Failure(HeaderNotFound("header5"));
  }

  // ---------------------------------------------------------------------
  // The seven-column table held in data.csv

  const H7: Row := ["col1", "col2", "col3", "col4", "col5", "col6", "col7"]
  const Line1: Row := ["l1c1", "l1c2", "l1c3", "l1c4", "l1c5", "l1c6", "l1c7"]
  const Line2: Row := ["l2c1", "l2c2", "l2c3", "l2c4", "l2c5", "l2c6", "l2c7"]
  const Line3: Row := ["l3c1", "l3c2", "l3c3", "l3c4", "l3c5", "l3c6", "l3c7"]
  const Rows7: seq<Row> := [Line1, Line1, Line2, Line3]
  const T7: Table := Table(H7, Rows7)
  const HeaderText7: string := "col1,col2,col3,col4,col5,col6,col7"
  const LineText1: string := "l1c1,l1c2,l1c3,l1c4,l1c5,l1c6,l1c7"
  const LineText2: string := "l2c1,l2c2,l2c3,l2c4,l2c5,l2c6,l2c7"
  const LineText3: string := "l3c1,l3c2,l3c3,l3c4,l3c5,l3c6,l3c7"
  const Csv7: string := HeaderText7 + "\n" + LineText1 + "\n" + LineText1 + "\n" + LineText2 + "\n" + LineText3

  lemma HeaderLeft7() ensures RenderRecord(["col1", "col2", "col3", "col4"]) == "col1,col2,col3,col4" {}
  lemma HeaderRight7() ensures RenderRecord(["col5", "col6", "col7"]) == "col5,col6,col7" {}
  lemma HeaderWhole7() ensures "col1,col2,col3,col4" + "," + "col5,col6,col7" == HeaderText7 {}
  lemma RecordHeader7() ensures RenderRecord(H7) == HeaderText7 {
    HeaderLeft7(); HeaderRight7(); HeaderWhole7();
    assert H7[..4] == ["col1", "col2", "col3", "col4"] && H7[4..] == ["col5", "col6", "col7"];
    RecordFromHalves(H7, "col1,col2,col3,col4", "col5,col6,col7", HeaderText7);
  }

  lemma Line1Left() ensures RenderRecord(["l1c1", "l1c2", "l1c3", "l1c4"]) == "l1c1,l1c2,l1c3,l1c4" {}
  lemma Line1Right() ensures RenderRecord(["l1c5", "l1c6", "l1c7"]) == "l1c5,l1c6,l1c7" {}
  lemma Line1Whole() ensures "l1c1,l1c2,l1c3,l1c4" + "," + "l1c5,l1c6,l1c7" == LineText1 {}
  lemma RecordLine1() ensures RenderRecord(Line1) == LineText1 {
    Line1Left(); Line1Right(); Line1Whole();
    assert Line1[..4] == ["l1c1", "l1c2", "l1c3", "l1c4"] && Line1[4..] == ["l1c5", "l1c6", "l1c7"];
    RecordFromHalves(Line1, "l1c1,l1c2,l1c3,l1c4", "l1c5,l1c6,l1c7", LineText1);
  }

  lemma Line2Left() ensures RenderRecord(["l2c1", "l2c2", "l2c3", "l2c4"]) == "l2c1,l2c2,l2c3,l2c4" {}
  lemma Line2Right() ensures RenderRecord(["l2c5", "l2c6", "l2c7"]) == "l2c5,l2c6,l2c7" {}
  lemma Line2Whole() ensures "l2c1,l2c2,l2c3,l2c4" + "," + "l2c5,l2c6,l2c7" == LineText2 {}
  lemma RecordLine2() ensures RenderRecord(Line2) == LineText2 {
    Line2Left(); Line2Right(); Line2Whole();
    assert Line2[..4] == ["l2c1", "l2c2", "l2c3", "l2c4"] && Line2[4..] == ["l2c5", "l2c6", "l2c7"];
    RecordFromHalves(Line2, "l2c1,l2c2,l2c3,l2c4", "l2c5,l2c6,l2c7", LineText2);
  }

  lemma Line3Left() ensures RenderRecord(["l3c1", "l3c2", "l3c3", "l3c4"]) == "l3c1,l3c2,l3c3,l3c4" {}
  lemma Line3Right() ensures RenderRecord(["l3c5", "l3c6", "l3c7"]) == "l3c5,l3c6,l3c7" {}
  lemma Line3Whole() ensures "l3c1,l3c2,l3c3,l3c4" + "," + "l3c5,l3c6,l3c7" == LineText3 {}
  lemma RecordLine3() ensures RenderRecord(Line3) == LineText3 {
    Line3Left(); Line3Right(); Line3Whole();
    assert Line3[..4] == ["l3c1", "l3c2", "l3c3", "l3c4"] && Line3[4..] == ["l3c5", "l3c6", "l3c7"];
    RecordFromHalves(Line3, "l3c1,l3c2,l3c3,l3c4", "l3c5,l3c6,l3c7", LineText3);
  }

  const Lines7: seq<string> := [HeaderText7, LineText1, LineText1, LineText2, LineText3]

  lemma Joined7() ensures Strings.Join(Lines7, '\n') == Csv7 {
    JoinFive(HeaderText7, LineText1, LineText1, LineText2, LineText3, '\n');
  }

  lemma Records7() ensures forall k :: 0 <= k < |Lines7| ==> RenderRecord(([H7] + Rows7)[k]) == Lines7[k] {
    forall k | 0 <= k < |Lines7| ensures RenderRecord(([H7] + Rows7)[k]) == Lines7[k] {
      if k == 0 {
        assert ([H7] + Rows7)[k] == H7 && Lines7[k] == HeaderText7;
        RecordHeader7();
      } else if k < 3 {
        assert ([H7] + Rows7)[k] == Line1 && Lines7[k] == LineText1;
        RecordLine1();
      } else if k == 3 {
        assert ([H7] + Rows7)[k] == Line2 && Lines7[k] == LineText2;
        RecordLine2();
      } else {
        assert ([H7] + Rows7)[k] == Line3 && Lines7[k] == LineText3;
        RecordLine3();
      }
    }
  }

  lemma Rendered7() ensures Render([H7] + Rows7) == Csv7 {
    Records7(); Joined7();
    RenderFrom([H7] + Rows7, Lines7, Csv7);
  }

  /** A field of lower-case letters and digits is plain. */
  lemma AlnumPlain(field: string)
    requires forall k :: 0 <= k < |field| ==> 'a' <= field[k] <= 'z' || '0' <= field[k] <= '9'
    ensures PlainField(field)
  {
  }

  /** A record of seven such fields is plain. */
  lemma AlnumPlain7(a: string, b: string, c: string, d: string, e: string, f: string, g: string)
    requires PlainField(a) && PlainField(b) && PlainField(c) && PlainField(d)
    requires PlainField(e) && PlainField(f) && PlainField(g)
    ensures PlainRecord([a, b, c, d, e, f, g])
  {
  }

  lemma PlainH7() ensures PlainRecord(H7) {
    AlnumPlain("col1"); AlnumPlain("col2"); AlnumPlain("col3"); AlnumPlain("col4");
    AlnumPlain("col5"); AlnumPlain("col6"); AlnumPlain("col7");
    AlnumPlain7("col1", "col2", "col3", "col4", "col5", "col6", "col7");
  }
  lemma PlainLine1() ensures PlainRecord(Line1) {
    AlnumPlain("l1c1"); AlnumPlain("l1c2"); AlnumPlain("l1c3"); AlnumPlain("l1c4");
    AlnumPlain("l1c5"); AlnumPlain("l1c6"); AlnumPlain("l1c7");
    AlnumPlain7("l1c1", "l1c2", "l1c3", "l1c4", "l1c5", "l1c6", "l1c7");
  }
  lemma PlainLine2() ensures PlainRecord(Line2) {
    AlnumPlain("l2c1"); AlnumPlain("l2c2"); AlnumPlain("l2c3"); AlnumPlain("l2c4");
    AlnumPlain("l2c5"); AlnumPlain("l2c6"); AlnumPlain("l2c7");
    AlnumPlain7("l2c1", "l2c2", "l2c3", "l2c4", "l2c5", "l2c6", "l2c7");
  }
  lemma PlainLine3() ensures PlainRecord(Line3) {
    AlnumPlain("l3c1"); AlnumPlain("l3c2"); AlnumPlain("l3c3"); AlnumPlain("l3c4");
    AlnumPlain("l3c5"); AlnumPlain("l3c6"); AlnumPlain("l3c7");
    AlnumPlain7("l3c1", "l3c2", "l3c3", "l3c4", "l3c5", "l3c6", "l3c7");
  }

  lemma Plain7() ensures PlainRecord(H7) && forall k :: 0 <= k < |Rows7| ==> |Rows7[k]| == |H7| && PlainRecord(Rows7[k]) {
    PlainH7(); PlainLine1(); PlainLine2(); PlainLine3();
    assert Rows7 == [Line1, Line1, Line2, Line3];
  }

  lemma Parsed7() ensures ParseTable(Csv7) == Success(T7) {
    Rendered7(); Plain7();
    ParseRenderTable(H7, Rows7);
  }

  /** test_processCsvFile_no_filter: the file written back unchanged. */
  lemma ProcessCsvFileNoFilter() ensures ProcessCsvData(Csv7, "", "") == Success(Csv7) {
    Rendered7(); Plain7(); Distinct7();
    EmptySelectionAndFiltersIsIdentity(H7, Rows7);
  }

  // The selection shared by the two filtered runs over data.csv.

  const Sel7: string := "col1,col3,col4,col7"
  const Names7: seq<string> := ["col1", "col3", "col4", "col7"]
  const Idx7: seq<nat> := [0, 2, 3, 6]
  const Header7Out: Row := ["col1", "col3", "col4", "col7"]
  const Out1: Row := ["l2c1", "l2c3", "l2c4", "l2c7"]
  const Out2: Row := ["l3c1", "l3c3", "l3c4", "l3c7"]
  const BodyC: seq<Row> := [Out1, Out2]
  const BodyD: seq<Row> := [Out2]

  lemma Selection7() ensures SelectionList(Sel7, H7) == Names7 {
    SelectionIs(Sel7, H7, Names7);
  }
  lemma IndicesOfNames7() ensures SelectIndices(Names7, H7) == Success(Idx7) {
    Distinct7(); Projected7();
    assert Names7 == Header7Out;
    SelectionInHeaderOrder(H7, Idx7);
  }
  lemma Indices7() ensures SelectIndices(SelectionList(Sel7, H7), H7) == Success(Idx7) {
    Selection7(); IndicesOfNames7();
  }

  lemma Projected7()
    ensures Project(H7, Idx7) == Header7Out
    ensures Project(Line2, Idx7) == Out1 && Project(Line3, Idx7) == Out2
  {
    ProjectIs(H7, Idx7, Header7Out);
    ProjectIs(Line2, Idx7, Out1);
    ProjectIs(Line3, Idx7, Out2);
  }

  lemma RecordHeader7Out() ensures RenderRecord(["col1", "col3", "col4", "col7"]) == "col1,col3,col4,col7" {}
  lemma RecordOut1() ensures RenderRecord(["l2c1", "l2c3", "l2c4", "l2c7"]) == "l2c1,l2c3,l2c4,l2c7" {}
  lemma RecordOut2() ensures RenderRecord(["l3c1", "l3c3", "l3c4", "l3c7"]) == "l3c1,l3c3,l3c4,l3c7" {}

  lemma Distinct7() ensures Distinct(H7) {}

  lemma Columns7() ensures IndexOf(H7, "col1") == 0 && IndexOf(H7, "col3") == 2 {
    Distinct7();
    IndexOfDistinct(H7, 0);
    IndexOfDistinct(H7, 2);
  }

  // test_processCsvFile_with_filters: "col1>l1c1\ncol3!=l1c3".

  const FilterTextC: string := "col1>l1c1" + "\n" + "col3!=l1c3"
  const FiltersC: seq<Filter> := [Filter("col1", ">", "l1c1"), Filter("col3", "!=", "l1c3")]
  const VerdictsC: seq<bool> := [false, false, true, true]
  const OutTextC: string := "col1,col3,col4,col7" + "\n" + "l2c1,l2c3,l2c4,l2c7" + "\n" + "l3c1,l3c3,l3c4,l3c7"

  lemma ParsedFiltersC() ensures ParseFilters(FilterTextC) == Success(FiltersC) {
    assert AllIn("col1", Word) && AllIn("col3", Word);
    ParsedFiltersFrom(FilterTextC, ["col1>l1c1", "col3!=l1c3"], FiltersC);
  }

  lemma RowC1() ensures ApplyFilters(Line1, H7, FiltersC) == Success(false) {
    Columns7();
  }
  lemma RowC2() ensures ApplyFilters(Line2, H7, FiltersC) == Success(true) {
    Columns7();
    assert Lexicographic.Less("l1c1", "l2c1");
  }
  lemma RowC3() ensures ApplyFilters(Line3, H7, FiltersC) == Success(true) {
    Columns7();
    assert Lexicographic.Less("l1c1", "l3c1");
  }

  lemma VerdictsOfC() ensures forall k :: 0 <= k < |Rows7| ==> ApplyFilters(Rows7[k], H7, FiltersC) == Success(VerdictsC[k]) {
    forall k | 0 <= k < |Rows7| ensures ApplyFilters(Rows7[k], H7, FiltersC) == Success(VerdictsC[k]) {
      if k < 2 {
        assert Rows7[k] == Line1 && !VerdictsC[k];
        RowC1();
      } else if k == 2 {
        assert Rows7[k] == Line2;
        RowC2();
      } else {
        assert Rows7[k] == Line3 && VerdictsC[k];
        RowC3();
      }
    }
  }

  lemma KeptC() ensures Kept(Rows7, VerdictsC) == [Line2, Line3] {
    KeptCons(Line3, [], true, []);
    KeptCons(Line2, [Line3], true, [true]);
    KeptCons(Line1, [Line2, Line3], false, [true, true]);
    KeptCons(Line1, [Line1, Line2, Line3], false, [false, true, true]);
    assert Rows7 == [Line1] + [Line1, Line2, Line3] && VerdictsC == [false] + [false, true, true];
  }

  lemma FilteredC() ensures FilterRows(Rows7, RowTest(H7, FiltersC)) == Success([Line2, Line3]) {
    VerdictsOfC(); KeptC();
    KeptFrom(T7, FiltersC, VerdictsC, [Line2, Line3]);
  }

  lemma ProjectedC() ensures ProjectRows([Line2, Line3], Idx7) == Success(BodyC) {
    Projected7();
    ProjectRowsIs([Line2, Line3], Idx7, BodyC);
  }

  lemma ProcessC() ensures Process(T7, Sel7, FilterTextC) == Success([Header7Out] + BodyC) {
    ParsedFiltersC(); Indices7(); FilteredC(); Projected7(); ProjectedC();
    ProcessFrom(T7, Sel7, FilterTextC, FiltersC, Idx7, [Line2, Line3], Header7Out, BodyC);
  }

  lemma RenderedC() ensures Render([Header7Out] + BodyC) == OutTextC {
    RecordHeader7Out(); RecordOut1(); RecordOut2();
    JoinThree("col1,col3,col4,col7", "l2c1,l2c3,l2c4,l2c7", "l3c1,l3c3,l3c4,l3c7", '\n');
    RenderFrom([Header7Out] + BodyC, ["col1,col3,col4,col7", "l2c1,l2c3,l2c4,l2c7", "l3c1,l3c3,l3c4,l3c7"], OutTextC);
  }

  /** test_processCsvFile_with_filters: both copies of the first data line
      fail "col1>l1c1"; the other two lines pass both filters. */
  lemma ProcessCsvFileWithFilters()
    ensures ProcessCsvData(Csv7, "col1,col3,col4,col7", "col1>l1c1" + "\n" + "col3!=l1c3")
            == Success("col1,col3,col4,col7" + "\n" + "l2c1,l2c3,l2c4,l2c7" + "\n" + "l3c1,l3c3,l3c4,l3c7")
  {
    Parsed7(); ProcessC(); RenderedC();
    ProcessCsvDataFrom(Csv7, Sel7, FilterTextC, T7, [Header7Out] + BodyC, OutTextC);
  }

  // test_processCsvFile_selected_columns_and_specific_filters: "col1>l1c1\ncol3>l2c3".

  const FilterTextD: string := "col1>l1c1" + "\n" + "col3>l2c3"
  const FiltersD: seq<Filter> := [Filter("col1", ">", "l1c1"), Filter("col3", ">", "l2c3")]
  const VerdictsD: seq<bool> := [false, false, false, true]
  const OutTextD: string := "col1,col3,col4,col7" + "\n" + "l3c1,l3c3,l3c4,l3c7"

  lemma ParsedFiltersD() ensures ParseFilters(FilterTextD) == Success(FiltersD) {
    assert AllIn("col1", Word) && AllIn("col3", Word);
    ParsedFiltersFrom(FilterTextD, ["col1>l1c1", "col3>l2c3"], FiltersD);
  }

  lemma RowD1() ensures ApplyFilters(Line1, H7, FiltersD) == Success(false) {
    Columns7();
  }
  lemma RowD2() ensures ApplyFilters(Line2, H7, FiltersD) == Success(false) {
    Columns7();
    assert Lexicographic.Less("l1c1", "l2c1");
  }
  lemma RowD3() ensures ApplyFilters(Line3, H7, FiltersD) == Success(true) {
    Columns7();
    assert Lexicographic.Less("l1c1", "l3c1") && Lexicographic.Less("l2c3", "l3c3");
  }

  lemma VerdictsOfD() ensures forall k :: 0 <= k < |Rows7| ==> ApplyFilters(Rows7[k], H7, FiltersD) == Success(VerdictsD[k]) {
    forall k | 0 <= k < |Rows7| ensures ApplyFilters(Rows7[k], H7, FiltersD) == Success(VerdictsD[k]) {
      if k < 2 {
        assert Rows7[k] == Line1 && !VerdictsD[k];
        RowD1();
      } else if k == 2 {
        assert Rows7[k] == Line2;
        RowD2();
      } else {
        assert Rows7[k] == Line3 && VerdictsD[k];
        RowD3();
      }
    }
  }

  lemma KeptD() ensures Kept(Rows7, VerdictsD) == [Line3] {
    KeptCons(Line3, [], true, []);
    KeptCons(Line2, [Line3], false, [true]);
    KeptCons(Line1, [Line2, Line3], false, [false, true]);
    KeptCons(Line1, [Line1, Line2, Line3], false, [false, false, true]);
    assert Rows7 == [Line1] + [Line1, Line2, Line3] && VerdictsD == [false] + [false, false, true];
  }

  lemma FilteredD() ensures FilterRows(Rows7, RowTest(H7, FiltersD)) == Success([Line3]) {
    VerdictsOfD(); KeptD();
    KeptFrom(T7, FiltersD, VerdictsD, [Line3]);
  }

  lemma ProjectedD() ensures ProjectRows([Line3], Idx7) == Success(BodyD) {
    Projected7();
    ProjectRowsIs([Line3], Idx7, BodyD);
  }

  lemma ProcessD() ensures Process(T7, Sel7, FilterTextD) == Success([Header7Out] + BodyD) {
    ParsedFiltersD(); Indices7(); FilteredD(); Projected7(); ProjectedD();
    ProcessFrom(T7, Sel7, FilterTextD, FiltersD, Idx7, [Line3], Header7Out, BodyD);
  }

  lemma RenderedD() ensures Render([Header7Out] + BodyD) == OutTextD {
    RecordHeader7Out(); RecordOut2();
    RenderFrom([Header7Out] + BodyD, ["col1,col3,col4,col7", "l3c1,l3c3,l3c4,l3c7"], OutTextD);
  }

  /** test_processCsvFile_selected_columns_and_specific_filters: only the
      third data line is above "l2c3" in its third column. */
  lemma ProcessCsvFileSpecificFilters()
    ensures ProcessCsvData(Csv7, "col1,col3,col4,col7", "col1>l1c1" + "\n" + "col3>l2c3")
            == Success("col1,col3,col4,col7" + "\n" + "l3c1,l3c3,l3c4,l3c7")
  {
    Parsed7(); ProcessD(); RenderedD();
    ProcessCsvDataFrom(Csv7, Sel7, FilterTextD, T7, [Header7Out] + BodyD, OutTextD);
  }

  // Case 5 of the demo: "col3#l1c3" is not a filter.

  const GoodLineE: string := "col1>l1c1"
  const BadLineE: string := "col3#l1c3"

  lemma NotAFilter() ensures ParseFilterLine(BadLineE) == None {
    assert BadLineE[..4] == "col3" && AllIn("col3", Word);
    RunLengthIs(BadLineE, Word, 4);
    assert BadLineE[4..] == "#l1c3";
    RunLengthIs("#l1c3", OperatorChar, 0);
  }

  lemma GoodFilterE() ensures ParseFilterLine(GoodLineE) == Some(Filter("col1", ">", "l1c1")) {
    assert AllIn("col1", Word);
    ParseFilterLineFindsGreedyMatch(GoodLineE, Filter("col1", ">", "l1c1"));
  }

  lemma SplitE() ensures Strings.Split(GoodLineE + "\n" + BadLineE, '\n') == [GoodLineE, BadLineE] {
    JoinTwo(GoodLineE, BadLineE, '\n');
    Strings.SplitJoin([GoodLineE, BadLineE], '\n');
  }

  /** Two filter lines of which only the second is rejected. */
  lemma SecondLineInvalid(good: string, bad: string)
    requires ParseFilterLine(good).Some? && ParseFilterLine(bad).None?
    ensures ParseFilterLines([good, bad]) == Failure(InvalidFilter(bad))
  {
    assert FirstInvalidLine([good, bad], 1);
    ParseFilterLinesReportsFirst([good, bad], 1);
  }

  lemma LinesE() ensures ParseFilterLines([GoodLineE, BadLineE]) == Failure(InvalidFilter(BadLineE)) {
    GoodFilterE(); NotAFilter();
    SecondLineInvalid(GoodLineE, BadLineE);
  }

  lemma InvalidFiltersE() ensures ParseFilters(GoodLineE + "\n" + BadLineE) == Failure(InvalidFilter(BadLineE)) {
    SplitE(); LinesE();
  }

  /** A line that is not a filter stops processing before the selection is
      looked at. */
  lemma InvalidFilterLine()
    ensures ProcessCsvData(Csv7, "col1,col3,col4,col7", "col1>l1c1" + "\n" + "col3#l1c3") == Failure(InvalidFilter("col3#l1c3"))
  {
    Parsed7(); InvalidFiltersE();
    assert Process(T7, Sel7, GoodLineE + "\n" + BadLineE) == Failure(InvalidFilter(BadLineE));
  }

  // A filter on a column the header lacks.

  const SelU: string := "header1"
  const FilterTextU: string := "header9>1"
  const FilterU: Filter := Filter("header9", ">", "1")

  lemma ParsedFiltersU() ensures ParseFilters(FilterTextU) == Success([FilterU]) {
    assert AllIn("header9", Word);
    ParsedFiltersFrom(FilterTextU, [FilterTextU], [FilterU]);
  }

  /** A filter on `header9`, which the three-column header lacks, fails the
      run at the first data row. */
  lemma UnknownFilterColumn()
    ensures ProcessCsvData(Csv3, SelU, FilterTextU) == Failure(UnknownFilterHeader("header9"))
  {
    Parsed3(); ParsedFiltersU(); SelectionU(); TableU();
    UnknownFirstFilter(Csv3, T3, SelU, FilterTextU, FilterU, [SelU]);
  }

  lemma SelectionU() ensures SelectionList(SelU, T3.header) == [SelU] {
    SelectionIs(SelU, H3, [SelU]);
  }

  lemma TableU()
    ensures |T3.rows| > 0 && FilterU.header !in T3.header
    ensures forall m :: 0 <= m < |[SelU]| ==> [SelU][m] in T3.header
  {
    assert T3.header == H3 && SelU == H3[0];
  }

  /** `UnknownFilterHeaderStops` for a single filter and a known selection. */
  lemma UnknownFirstFilter(csv: string, t: Table, selected: string, rowFilters: string, f: Filter, cols: seq<string>)
    requires ParseTable(csv) == Success(t) && |t.rows| > 0
    requires ParseFilters(rowFilters) == Success([f]) && f.header !in t.header
    requires SelectionList(selected, t.header) == cols && forall m :: 0 <= m < |cols| ==> cols[m] in t.header
    ensures ProcessCsvData(csv, selected, rowFilters) == Failure(UnknownFilterHeader(f.header))
  {
    UnknownFilterHeaderStops(csv, t, selected, rowFilters);
  }
}
