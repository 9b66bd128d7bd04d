/** The row-filter language: one `header<op>value` condition per line,
    and the evaluation of a list of conditions against one data row. */
module FilterLanguage {
  import opened Wrappers
  import opened CsvTable
  import Strings
  import Lexicographic

  /** One parsed filter line. The operator is kept as the text that matched;
      whether it is one of the six comparisons is only decided when a row
      is evaluated against it. */
  datatype Filter = Filter(header: string, op: string, value: string)

  /** The six comparisons the evaluator knows. */
  datatype Comparison = Gt | Lt | Eq | Ne | Ge | Le

  /** The two character classes of the pattern `(\w+)([<>=!]+)(.*)`. */
  datatype CharClass = Word | OperatorChar

  predicate InClass(c: char, cls: CharClass)
  {
    match cls
    case Word => ('a' <= c <= 'z') || ('A' <= c <= 'Z') || ('0' <= c <= '9') || c == '_'
    case OperatorChar => c == '<' || c == '>' || c == '=' || c == '!'
  }

  predicate AllIn(s: string, cls: CharClass)
  {
    forall k :: 0 <= k < |s| ==> InClass(s[k], cls)
  }

  /** Length of the longest prefix of `s` drawn from `cls`: what a greedy
      `+` (or `*`) over that class consumes. */
  function RunLength(s: string, cls: CharClass): (n: nat)
    ensures n <= |s|
    ensures AllIn(s[..n], cls)
    ensures n < |s| ==> !InClass(s[n], cls)
    decreases |s|
  {
    if |s| == 0 || !InClass(s[0], cls) then 0
    else 1 + RunLength(s[1..], cls)
  }

  /** `re.match` of the filter pattern succeeds with the header ending at
      `i` and the operator ending at `j` (`.*` then matches any rest). */
  ghost predicate PatternMatchesAt(line: string, i: nat, j: nat)
  {
    0 < i < j <= |line| && AllIn(line[..i], Word) && AllIn(line[i..j], OperatorChar)
  }

  /** `f` is the greedy match of the filter pattern on `line`: the line is
      header, operator and value in turn; the header is a non-empty run of
      word characters, the operator a non-empty run of operator characters
      that the value does not continue. */
  ghost predicate IsGreedyMatch(line: string, f: Filter)
  {
    && line == f.header + f.op + f.value
    && |f.header| > 0 && AllIn(f.header, Word)
    && |f.op| > 0 && AllIn(f.op, OperatorChar)
    && (|f.value| == 0 || !InClass(f.value[0], OperatorChar))
  }

  /** The groups of `re.match(r'(\w+)([<>=!]+)(.*)', line)`, if it matches. */
  function ParseFilterLine(line: string): (r: Option<Filter>)
    ensures r.Some? ==> IsGreedyMatch(line, r.value)
  {
    var h := RunLength(line, Word);
    if h == 0 then None
    else
      var o := RunLength(line[h..], OperatorChar);
      if o == 0 then None
      else
        assert line[h..][..o] == line[h..h + o];
        assert line == line[..h] + line[h..h + o] + line[h + o..];
        Some(Filter(line[..h], line[h..h + o], line[h + o..]))
  }

  /** A line parses exactly when the pattern can match it at all. */
  lemma ParseFilterLineAccepts(line: string)
    ensures ParseFilterLine(line).Some? <==> exists i: nat, j: nat :: PatternMatchesAt(line, i, j)
  {
    var h := RunLength(line, Word);
    if exists i: nat, j: nat :: PatternMatchesAt(line, i, j) {
      var i: nat, j: nat :| PatternMatchesAt(line, i, j);
      // The word run cannot stop before i, nor pass the operator at i.
      assert h >= i;
      assert InClass(line[i..j][0], OperatorChar);
      assert h == i;
      assert line[h..][0] == line[i..j][0];
    }
    if ParseFilterLine(line).Some? {
      var o := RunLength(line[h..], OperatorChar);
      assert line[h..h + o] == line[h..][..o];
      assert PatternMatchesAt(line, h, h + o);
    }
  }

  /** A run of `cls` characters that ends at `n` has length `n`. */
  lemma {:induction false} RunLengthIs(s: string, cls: CharClass, n: nat)
    requires n <= |s| && AllIn(s[..n], cls)
    requires n < |s| ==> !InClass(s[n], cls)
    ensures RunLength(s, cls) == n
    decreases n
  {
    if n > 0 {
      assert InClass(s[..n][0], cls);
      assert s[1..][..n - 1] == s[..n][1..];
      RunLengthIs(s[1..], cls, n - 1);
    }
  }

  /** The greedy match is unique, so the parser finds exactly it. */
  lemma ParseFilterLineFindsGreedyMatch(line: string, f: Filter)
    requires IsGreedyMatch(line, f)
    ensures ParseFilterLine(line) == Some(f)
  {
    var n := |f.header|;
    var m := |f.op|;
    assert line[..n] == f.header;
    assert line[n] == f.op[0];
    RunLengthIs(line, Word, n);
    var rest := line[n..];
    assert rest == f.op + f.value;
    assert rest[..m] == f.op;
    assert m < |rest| ==> rest[m] == f.value[0];
    RunLengthIs(rest, OperatorChar, m);
    assert line[n..n + m] == f.op;
    assert line[n + m..] == f.value;
  }

  /** The line a filter was parsed from. */
  function RenderFilter(f: Filter): string
  {
    f.header + f.op + f.value
  }

  /** Parsing then rendering gives back the line; rendering a well-formed
      filter then parsing gives back the filter. */
  lemma FilterLineRoundTrip(line: string, f: Filter)
    ensures ParseFilterLine(line) == Some(f) ==> RenderFilter(f) == line
    ensures IsGreedyMatch(RenderFilter(f), f) ==> ParseFilterLine(RenderFilter(f)) == Some(f)
  {
    if IsGreedyMatch(RenderFilter(f), f) {
      ParseFilterLineFindsGreedyMatch(RenderFilter(f), f);
    }
  }

  /** `parse_filters` on the `\n`-separated pieces of a non-empty string:
      the first line that does not match stops everything. */
  function ParseFilterLines(lines: seq<string>): (r: Result<seq<Filter>, Error>)
    ensures r.Success? <==> forall k :: 0 <= k < |lines| ==> ParseFilterLine(lines[k]).Some?
    ensures r.Success? ==> |r.value| == |lines|
    ensures r.Success? ==> forall k :: 0 <= k < |lines| ==> ParseFilterLine(lines[k]) == Some(r.value[k])
    ensures r.Failure? ==> exists k :: 0 <= k < |lines| && FirstInvalidLine(lines, k) && r.error == InvalidFilter(lines[k])
  {
    ParseEach(lines, ParseFilterLine)
  }

  /** Line `k` is the first line the pattern rejects. */
  predicate FirstInvalidLine(lines: seq<string>, k: nat)
  {
    FirstRejected(lines, ParseFilterLine, k)
  }

  /** The loop of `parse_filters`, for any per-line parser: every line
      parsed in order, the first rejected line reported. */
  function ParseEach<T>(lines: seq<string>, parse: string -> Option<T>): (r: Result<seq<T>, Error>)
    ensures r.Success? <==> forall k :: 0 <= k < |lines| ==> parse(lines[k]).Some?
    ensures r.Success? ==> |r.value| == |lines|
    ensures r.Success? ==> forall k :: 0 <= k < |lines| ==> parse(lines[k]) == Some(r.value[k])
    ensures r.Failure? ==> exists k :: 0 <= k < |lines| && FirstRejected(lines, parse, k) && r.error == InvalidFilter(lines[k])
    decreases |lines|
  {
    if |lines| == 0 then Success([])
    else
      match parse(lines[0])
      case None =>
        assert FirstRejected(lines, parse, 0);
        Failure(InvalidFilter(lines[0]))
      case Some(f) =>
        var rest := ParseEach(lines[1..], parse);
        if rest.Failure? then
          var k :| 0 <= k < |lines| - 1 && FirstRejected(lines[1..], parse, k) && rest.error == InvalidFilter(lines[1..][k]);
          FirstRejectedLater(lines, parse, k);
          Failure(rest.error)
        else
          assert forall k :: 0 < k < |lines| ==> lines[k] == lines[1..][k - 1];
          Success([f] + rest.value)
  }

  /** Line `k` is the first line `parse` rejects. */
  predicate FirstRejected<T>(lines: seq<string>, parse: string -> Option<T>, k: nat)
  {
    && k < |lines|
    && parse(lines[k]).None?
    && forall j :: 0 <= j < k ==> parse(lines[j]).Some?
  }

  /** A first rejected line of the tail, behind an accepted first line, is
      the first rejected line of the whole list. */
  lemma FirstRejectedLater<T>(lines: seq<string>, parse: string -> Option<T>, k: nat)
    requires |lines| > 0 && parse(lines[0]).Some? && FirstRejected(lines[1..], parse, k)
    ensures FirstRejected(lines, parse, k + 1) && lines[k + 1] == lines[1..][k]
  {
    forall j | 0 <= j < k + 1 ensures parse(lines[j]).Some? {
      if j > 0 {
        assert lines[j] == lines[1..][j - 1];
      }
    }
  }

  /** The error names the first line that is not a filter. */
  lemma ParseFilterLinesReportsFirst(lines: seq<string>, k: nat)
    requires FirstInvalidLine(lines, k)
    ensures ParseFilterLines(lines) == Failure(InvalidFilter(lines[k]))
  {
    var r := ParseFilterLines(lines);
    var k' :| 0 <= k' < |lines| && FirstInvalidLine(lines, k') && r.error == InvalidFilter(lines[k']);
    assert !(k' < k) && !(k < k');
  }

  /** `parse_filters`: the empty string means no filter; anything else is
      one filter per `\n`-separated line, an empty line included, each the
      greedy match of the pattern on its line, or else the error naming the
      first line that is not a filter. */
  function ParseFilters(text: string): (r: Result<seq<Filter>, Error>)
    ensures text == "" ==> r == Success([])
    ensures text != "" && r.Success? ==>
              forall k :: 0 <= k < |Strings.Split(text, '\n')| ==> ParseFilterLine(Strings.Split(text, '\n')[k]).Some?
    ensures text != "" && r.Success? ==> |r.value| == |Strings.Split(text, '\n')|
    ensures text != "" && r.Success? ==>
              forall k :: 0 <= k < |r.value| ==> IsGreedyMatch(Strings.Split(text, '\n')[k], r.value[k])
    ensures r.Failure? ==>
              exists k :: 0 <= k < |Strings.Split(text, '\n')| && FirstInvalidLine(Strings.Split(text, '\n'), k)
                          && r.error == InvalidFilter(Strings.Split(text, '\n')[k])
    ensures r.Success? ==> forall k :: 0 <= k < |r.value| ==> '\n' !in RenderFilter(r.value[k])
  {
    if text == "" then Success([])
    else ParseFilterLines(Strings.Split(text, '\n'))
  }

  /** A filter string ending in a newline always fails: its last line is
      empty, and an empty line is not a filter. */
  lemma TrailingNewlineRejected(text: string)
    ensures ParseFilters(text + "\n").Failure?
  {
    var lines := Strings.Split(text + "\n", '\n');
    Strings.SplitEndsEmpty(text, '\n');
    assert ParseFilterLine(lines[|lines| - 1]).None?;
  }

  /** Filters rendered one per line read back as the same filters. */
  lemma ParseFiltersRoundTrip(filters: seq<Filter>)
    requires forall k :: 0 <= k < |filters| ==> IsGreedyMatch(RenderFilter(filters[k]), filters[k])
    requires forall k :: 0 <= k < |filters| ==> '\n' !in filters[k].value
    ensures ParseFilters(Strings.Join(seq(|filters|, k requires 0 <= k < |filters| => RenderFilter(filters[k])), '\n'))
            == Success(filters)
  {
    var lines := seq(|filters|, k requires 0 <= k < |filters| => RenderFilter(filters[k]));
    forall k | 0 <= k < |lines| ensures '\n' !in lines[k] && ParseFilterLine(lines[k]) == Some(filters[k]) {
      RenderedFilterLine(filters[k]);
    }
    if |filters| > 0 {
      var text := Strings.Join(lines, '\n');
      Strings.SplitJoin(lines, '\n');
      assert ParseFilterLine("").None? && Strings.Split("", '\n') == [""];
      assert text != "";
      var parsed := ParseFilterLines(lines);
      assert parsed.value == filters;
    }
  }

  /** A greedily matchable filter with a newline-free value is written as
      one newline-free line that parses back to it. */
  lemma RenderedFilterLine(f: Filter)
    requires IsGreedyMatch(RenderFilter(f), f) && '\n' !in f.value
    ensures '\n' !in RenderFilter(f) && ParseFilterLine(RenderFilter(f)) == Some(f)
  {
    ParseFilterLineFindsGreedyMatch(RenderFilter(f), f);
    assert AllIn(f.header, Word) && AllIn(f.op, OperatorChar);
    assert '\n' !in f.header && '\n' !in f.op;
  }

  /** The operator symbol of each comparison, as written in a filter line. */
  function Symbol(c: Comparison): string
  {
    match c
    case Gt => ">"
    case Lt => "<"
    case Eq => "="
    case Ne => "!="
    case Ge => ">="
    case Le => "<="
  }

  /** The comparison an operator run names, if any. */
  function OperatorOf(op: string): (r: Option<Comparison>)
    ensures r.Some? ==> Symbol(r.value) == op
    ensures r.Some? <==> op in {">", "<", "=", "!=", ">=", "<="}
  {
    if op == ">" then Some(Gt)
    else if op == "<" then Some(Lt)
    else if op == "=" then Some(Eq)
    else if op == "!=" then Some(Ne)
    else if op == ">=" then Some(Ge)
    else if op == "<=" then Some(Le)
    else None
  }

  /** Each comparison's symbol reads back as that comparison. */
  lemma OperatorOfSymbol(c: Comparison)
    ensures OperatorOf(Symbol(c)) == Some(c)
  {
  }

  /** Equality is a single `=`; the doubled or reversed forms are not operators. */
  lemma EqualityIsSingleEquals()
    ensures OperatorOf("=") == Some(Eq)
    ensures OperatorOf("==") == None && OperatorOf("=>") == None && OperatorOf("=<") == None
  {
  }

  /** `cell <op> value` with Python string comparison: `<` and `>` hold
      when the smaller string is found at the first difference (or by
      ending first), `>=` and `<=` when the opposite strict comparison
      does not hold. */
  predicate Holds(c: Comparison, cell: string, value: string)
    ensures c == Lt ==> (Holds(c, cell, value) <==> exists k: nat :: Lexicographic.FirstDifferenceAt(cell, value, k))
    ensures c == Gt ==> (Holds(c, cell, value) <==> exists k: nat :: Lexicographic.FirstDifferenceAt(value, cell, k))
    ensures c == Ge ==> (Holds(c, cell, value) <==> !exists k: nat :: Lexicographic.FirstDifferenceAt(cell, value, k))
    ensures c == Le ==> (Holds(c, cell, value) <==> !exists k: nat :: Lexicographic.FirstDifferenceAt(value, cell, k))
    ensures c == Eq ==> (Holds(c, cell, value) <==> cell == value)
    ensures c == Ne ==> (Holds(c, cell, value) <==> cell != value)
  {
    Lexicographic.LessIffFirstDifference(cell, value);
    Lexicographic.LessIffFirstDifference(value, cell);
    match c
    case Gt => Lexicographic.Less(value, cell)
    case Lt => Lexicographic.Less(cell, value)
    case Eq => cell == value
    case Ne => cell != value
    case Ge => !Lexicographic.Less(cell, value)
    case Le => !Lexicographic.Less(value, cell)
  }

  /** The six comparisons relate as they do on a total order: exactly one
      of `<`, `=`, `>` holds, `>=` is `>` or `=`, `<=` is `<` or `=`, and
      `!=` is the negation of `=`. */
  lemma ComparisonLaws(cell: string, value: string)
    ensures Holds(Lt, cell, value) || Holds(Eq, cell, value) || Holds(Gt, cell, value)
    ensures !(Holds(Lt, cell, value) && Holds(Eq, cell, value))
    ensures !(Holds(Gt, cell, value) && Holds(Eq, cell, value))
    ensures !(Holds(Lt, cell, value) && Holds(Gt, cell, value))
    ensures Holds(Ge, cell, value) <==> Holds(Gt, cell, value) || Holds(Eq, cell, value)
    ensures Holds(Le, cell, value) <==> Holds(Lt, cell, value) || Holds(Eq, cell, value)
    ensures Holds(Ne, cell, value) <==> !Holds(Eq, cell, value)
  {
    Lexicographic.Trichotomy(cell, value);
    Lexicographic.Asymmetric(cell, value);
    Lexicographic.Irreflexive(cell);
  }

  /** Cells are compared as text, never as numbers: `n>9` rejects "10". */
  lemma ComparisonIsNotNumeric()
    ensures !Holds(Gt, "10", "9") && Holds(Lt, "10", "9")
  {
    Lexicographic.DigitsAreNotNumbers();
  }

  /** The filter's header is in the header row, the row reaches its
      column, and its operator is one of the six. */
  predicate Applicable(row: Row, headers: Row, f: Filter)
  {
    f.header in headers && IndexOf(headers, f.header) < |row| && OperatorOf(f.op).Some?
  }

  /** The filter is applicable and its comparison holds for the row. */
  predicate Satisfied(row: Row, headers: Row, f: Filter)
  {
    Applicable(row, headers, f) && Holds(OperatorOf(f.op).value, row[IndexOf(headers, f.header)], f.value)
  }

  /** Filter `k` is the first one the row does not satisfy. */
  ghost predicate FirstUnsatisfied(row: Row, headers: Row, filters: seq<Filter>, k: nat)
  {
    && k < |filters|
    && !Satisfied(row, headers, filters[k])
    && forall j :: 0 <= j < k ==> Satisfied(row, headers, filters[j])
  }

  /** The error an inapplicable filter raises, checked in the source's
      order: header lookup, then cell access, then the operator. */
  ghost predicate ReportsError(row: Row, headers: Row, f: Filter, e: Error)
  {
    if f.header !in headers then e == UnknownFilterHeader(f.header)
    else if IndexOf(headers, f.header) >= |row| then e == RowTooShort
    else OperatorOf(f.op).None? && e == InvalidOperator(f.op, f.header)
  }

  /** Every filter is satisfied by the row. */
  predicate AllSatisfied(row: Row, headers: Row, filters: seq<Filter>)
  {
    forall k :: 0 <= k < |filters| ==> Satisfied(row, headers, filters[k])
  }

  /** `apply_filters`: the conjunction of the filters, evaluated in order
      and stopping at the first one that fails, so a later filter is never
      looked at once an earlier one rejects the row. */
  function ApplyFilters(row: Row, headers: Row, filters: seq<Filter>): (r: Result<bool, Error>)
    ensures r == Success(true) <==> AllSatisfied(row, headers, filters)
    decreases |filters|
  {
    if |filters| == 0 then Success(true)
    else
      var f := filters[0];
      if f.header !in headers then Failure(UnknownFilterHeader(f.header))
      else if IndexOf(headers, f.header) >= |row| then Failure(RowTooShort)
      else
        match OperatorOf(f.op)
        case None => Failure(InvalidOperator(f.op, f.header))
        case Some(c) =>
          if Holds(c, row[IndexOf(headers, f.header)], f.value) then
            var rest := ApplyFilters(row, headers, filters[1..]);
            assert forall k :: 0 < k < |filters| ==> filters[k] == filters[1..][k - 1];
            rest
          else Success(false)
  }

  /** A row is rejected exactly when, before any error, some applicable
      filter fails; and an error is the one the first filter not satisfied
      raises. */
  lemma {:induction false} ApplyFiltersOutcome(row: Row, headers: Row, filters: seq<Filter>)
    ensures ApplyFilters(row, headers, filters) == Success(false) <==>
              exists k: nat :: FirstUnsatisfied(row, headers, filters, k) && Applicable(row, headers, filters[k])
    ensures ApplyFilters(row, headers, filters).Failure? ==>
              exists k: nat :: FirstUnsatisfied(row, headers, filters, k)
                               && ReportsError(row, headers, filters[k], ApplyFilters(row, headers, filters).error)
    decreases |filters|
  {
    if |filters| > 0 {
      var f := filters[0];
      if !Satisfied(row, headers, f) {
        assert FirstUnsatisfied(row, headers, filters, 0);
      } else {
        ApplyFiltersOutcome(row, headers, filters[1..]);
        assert ApplyFilters(row, headers, filters) == ApplyFilters(row, headers, filters[1..]);
        assert forall k :: 0 < k < |filters| ==> filters[k] == filters[1..][k - 1];
        assert forall k: nat :: FirstUnsatisfied(row, headers, filters[1..], k) ==> FirstUnsatisfied(row, headers, filters, k + 1);
        assert forall k: nat :: FirstUnsatisfied(row, headers, filters, k) ==> k > 0 && FirstUnsatisfied(row, headers, filters[1..], k - 1);
      }
    }
  }

  /** No filter accepts every row. */
  lemma NoFiltersAcceptEverything(row: Row, headers: Row)
    ensures ApplyFilters(row, headers, []) == Success(true)
  {
  }
}
