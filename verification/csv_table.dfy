/** CSV text as the processor reads and writes it: lines split on newline,
    fields split on comma, no quoting. */
module CsvTable {
  import opened Wrappers
  import opened Strings

  type Row = seq<string>

  /** The first line's fields, and the fields of every later line. */
  datatype Table = Table(header: Row, rows: seq<Row>)

  /** `str.splitlines()` for text whose only line terminator is `\n`: one
      line per terminator-separated piece, except that a terminator at the
      very end does not start a further, empty line. */
  function SplitLines(text: string): (lines: seq<string>)
    ensures forall k :: 0 <= k < |lines| ==> '\n' !in lines[k]
    ensures |lines| == 0 <==> text == ""
  {
    var pieces := Split(text, '\n');
    if pieces[|pieces| - 1] == "" then
      JoinSplit(text, '\n');
      pieces[..|pieces| - 1]
    else pieces
  }

  /** Splitting into lines drops exactly the newline that ends the text,
      if there is one, and nothing else. */
  lemma JoinSplitLines(text: string)
    ensures Join(SplitLines(text), '\n') + (if |text| > 0 && text[|text| - 1] == '\n' then "\n" else "") == text
  {
    var pieces := Split(text, '\n');
    JoinSplit(text, '\n');
    var last := pieces[|pieces| - 1];
    if |pieces| == 1 {
      assert text == pieces[0];
      if |text| > 0 {
        assert text[|text| - 1] in pieces[0];
      }
    } else {
      JoinDropLast(pieces, '\n');
      assert text == Join(pieces[..|pieces| - 1], '\n') + ['\n'] + last;
      if last != "" {
        assert text[|text| - 1] == last[|last| - 1];
        assert last[|last| - 1] in last;
      }
    }
  }

  /** Joining all pieces equals joining all but the last, then the separator
      and the last piece. */
  lemma {:induction false} JoinDropLast(parts: seq<string>, sep: char)
    requires |parts| >= 2
    ensures Join(parts, sep) == Join(parts[..|parts| - 1], sep) + [sep] + parts[|parts| - 1]
    decreases |parts|
  {
    if |parts| > 2 {
      JoinDropLast(parts[1..], sep);
      assert parts[1..][..|parts| - 2] == parts[..|parts| - 1][1..];
    }
  }

  /** Lines free of newlines, the last of them not empty, come back from
      their join unchanged. */
  lemma SplitLinesJoin(lines: seq<string>)
    requires forall k :: 0 <= k < |lines| ==> '\n' !in lines[k]
    requires |lines| > 0 ==> lines[|lines| - 1] != ""
    ensures SplitLines(Join(lines, '\n')) == lines
  {
    var text := Join(lines, '\n');
    if |lines| > 0 {
      SplitJoin(lines, '\n');
      assert Split(text, '\n') == lines;
      assert SplitLines(text) == lines;
    } else {
      assert Split("", '\n') == [""];
    }
  }

  /** What `csv.reader` yields for one line without quotes: no field for an
      empty line, otherwise the comma-separated fields. */
  function ParseRecord(line: string): (fields: Row)
    ensures forall k :: 0 <= k < |fields| ==> ',' !in fields[k]
  {
    if line == "" then [] else Split(line, ',')
  }

  /** A character absent from a string is absent from each of its pieces. */
  lemma {:induction false} SplitKeepsOut(s: string, sep: char, c: char)
    requires c !in s
    ensures forall k :: 0 <= k < |Split(s, sep)| ==> c !in Split(s, sep)[k]
    decreases |s|
  {
    if |s| > 0 {
      SplitKeepsOut(s[1..], sep, c);
    }
  }

  /** `','.join(fields)`: one output line, which stays one line when no
      field holds a newline. */
  function RenderRecord(fields: Row): (line: string)
    ensures (forall k :: 0 <= k < |fields| ==> '\n' !in fields[k]) ==> '\n' !in line
  {
    NewlineFreeJoin(fields, ',');
    Join(fields, ',')
  }

  /** `NewlineInJoin` for any parts: the join is newline-free when the parts are. */
  lemma NewlineFreeJoin(parts: seq<string>, sep: char)
    requires sep != '\n'
    ensures (forall k :: 0 <= k < |parts| ==> '\n' !in parts[k]) ==> '\n' !in Join(parts, sep)
  {
    if forall k :: 0 <= k < |parts| ==> '\n' !in parts[k] {
      NewlineInJoin(parts, sep);
    }
  }

  /** The characters `str.splitlines` ends a line at: `\n`, `\r`, `\v`,
      `\f`, the file, group and record separators, NEL, and the Unicode
      line and paragraph separators. */
  predicate LineBreak(c: char)
  {
    || c == '\n' || c == '\r' || c == '\U{000B}' || c == '\U{000C}'
    || c == '\U{001C}' || c == '\U{001D}' || c == '\U{001E}'
    || c == '\U{0085}' || c == '\U{2028}' || c == '\U{2029}'
  }

  /** A field the model reads exactly as `csv.reader` and `splitlines` do:
      no comma, no quote character, and nothing that ends a line. */
  predicate PlainField(field: string)
  {
    && ',' !in field && '"' !in field
    && forall k :: 0 <= k < |field| ==> !LineBreak(field[k])
  }

  /** A record that reads back as itself: plain fields, and not the single
      empty field (whose line is empty and reads back as no field). */
  predicate PlainRecord(fields: Row)
  {
    (forall k :: 0 <= k < |fields| ==> PlainField(fields[k])) && fields != [""]
  }

  /** A plain field has no comma and no newline. */
  lemma PlainFieldHasNoSeparator(field: string)
    requires PlainField(field)
    ensures ',' !in field && '\n' !in field
  {
  }

  /** The fields of a plain record have no comma and no newline. */
  lemma PlainRecordHasNoSeparator(fields: Row)
    requires PlainRecord(fields)
    ensures forall k :: 0 <= k < |fields| ==> ',' !in fields[k] && '\n' !in fields[k]
  {
    forall k | 0 <= k < |fields| ensures ',' !in fields[k] && '\n' !in fields[k] {
      PlainFieldHasNoSeparator(fields[k]);
    }
  }

  lemma ParseRenderRecord(fields: Row)
    requires PlainRecord(fields)
    ensures ParseRecord(RenderRecord(fields)) == fields
  {
    PlainRecordHasNoSeparator(fields);
    if |fields| > 0 {
      assert RenderRecord(fields) != "" by {
        if |fields| > 1 {
          assert |Join(fields, ',')| >= 1;
        }
      }
      SplitJoin(fields, ',');
    }
  }

  /** Rendered line of a record has no newline when its fields have none. */
  lemma RenderRecordHasNoNewline(fields: Row)
    requires forall k :: 0 <= k < |fields| ==> '\n' !in fields[k]
    ensures '\n' !in RenderRecord(fields)
  {
    NewlineInJoin(fields, ',');
  }

  lemma {:induction false} NewlineInJoin(parts: seq<string>, sep: char)
    requires sep != '\n'
    requires forall k :: 0 <= k < |parts| ==> '\n' !in parts[k]
    ensures '\n' !in Join(parts, sep)
    decreases |parts|
  {
    if |parts| > 1 {
      NewlineInJoin(parts[1..], sep);
    }
  }

  /** The lines `'\n'.join(...)` puts together: one per record. */
  function RenderLines(records: seq<Row>): (lines: seq<string>)
    ensures |lines| == |records|
    ensures forall k :: 0 <= k < |records| ==> lines[k] == RenderRecord(records[k])
    decreases |records|
  {
    if |records| == 0 then []
    else [RenderRecord(records[0])] + RenderLines(records[1..])
  }

  /** The text written out: records joined with `\n`, none after the last.
      When no field holds a newline, the text splits back on `\n` into
      exactly one line per record. */
  function Render(records: seq<Row>): (text: string)
    ensures |records| > 0 && (forall i, k :: 0 <= i < |records| && 0 <= k < |records[i]| ==> '\n' !in records[i][k])
            ==> Split(text, '\n') == RenderLines(records)
  {
    RenderSplits(records);
    Join(RenderLines(records), '\n')
  }

  lemma RenderSplits(records: seq<Row>)
    ensures |records| > 0 && (forall i, k :: 0 <= i < |records| && 0 <= k < |records[i]| ==> '\n' !in records[i][k])
            ==> Split(Join(RenderLines(records), '\n'), '\n') == RenderLines(records)
  {
    if |records| > 0 && (forall i, k :: 0 <= i < |records| && 0 <= k < |records[i]| ==> '\n' !in records[i][k]) {
      var lines := RenderLines(records);
      forall i | 0 <= i < |lines| ensures '\n' !in lines[i] {
        NewlineInJoin(records[i], ',');
      }
      SplitJoin(lines, '\n');
    }
  }

  /** Reads CSV text: the first line is the header, the rest are data rows.
      Text without any line has no header row to read. */
  function ParseTable(text: string): (r: Result<Table, Error>)
    ensures r.Failure? <==> text == ""
    ensures r.Failure? ==> r.error == NoHeaderRow
    ensures r.Success? ==> |r.value.rows| + 1 == |SplitLines(text)|
  {
    var lines := SplitLines(text);
    if |lines| == 0 then Failure(NoHeaderRow)
    else Success(Table(ParseRecord(lines[0]),
                       seq(|lines| - 1, k requires 0 <= k < |lines| - 1 => ParseRecord(lines[k + 1]))))
  }

  /** Rendering records and reading them back gives the header and rows
      again, provided every record is plain and the last line is not empty. */
  lemma ParseRenderTable(header: Row, rows: seq<Row>)
    requires PlainRecord(header)
    requires forall k :: 0 <= k < |rows| ==> PlainRecord(rows[k])
    requires |rows| > 0 ==> rows[|rows| - 1] != []
    requires |rows| == 0 ==> header != []
    ensures ParseTable(Render([header] + rows)) == Success(Table(header, rows))
  {
    var records := [header] + rows;
    var lines := RenderLines(records);
    PlainRecordLines(records);
    assert lines[|lines| - 1] != "" by {
      assert ParseRecord(lines[|lines| - 1]) == records[|records| - 1];
    }
    SplitLinesJoin(lines);
    assert forall k :: 0 <= k < |rows| ==> ParseRecord(lines[k + 1]) == records[k + 1] == rows[k];
    ParseTableOfLines(Render(records), lines, header, rows);
  }

  /** Each plain record is written as one line that reads back as itself. */
  lemma PlainRecordLines(records: seq<Row>)
    requires forall k :: 0 <= k < |records| ==> PlainRecord(records[k])
    ensures forall k :: 0 <= k < |records| ==>
              '\n' !in RenderLines(records)[k] && ParseRecord(RenderLines(records)[k]) == records[k]
  {
    forall k | 0 <= k < |records|
      ensures '\n' !in RenderLines(records)[k] && ParseRecord(RenderLines(records)[k]) == records[k]
    {
      PlainRecordHasNoSeparator(records[k]);
      ParseRenderRecord(records[k]);
    }
  }

  /** The table read from text whose lines read as the header and rows. */
  lemma ParseTableOfLines(text: string, lines: seq<string>, header: Row, rows: seq<Row>)
    requires SplitLines(text) == lines && |lines| == |rows| + 1
    requires ParseRecord(lines[0]) == header
    requires forall k :: 0 <= k < |rows| ==> ParseRecord(lines[k + 1]) == rows[k]
    ensures ParseTable(text) == Success(Table(header, rows))
  {
    var t := ParseTable(text);
    assert t.value.rows == rows;
  }

  /** `xs.index(x)`: the first position holding `x`. The source calls it
      only for values known to be present, or lets the failure escape. */
  function IndexOf(xs: seq<string>, x: string): (i: nat)
    requires x in xs
    ensures i < |xs| && xs[i] == x
    ensures forall j :: 0 <= j < i ==> xs[j] != x
  {
    if xs[0] == x then 0 else 1 + IndexOf(xs[1..], x)
  }
}
