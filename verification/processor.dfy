/** `process_csv_data`: read the table, parse the filters, check and sort
    the selected columns, keep the rows the filters accept, project them
    onto the selected columns and write the result back as CSV text. */
module CsvProcessor {
  import opened Wrappers
  import opened CsvTable
  import opened FilterLanguage
  import opened Sorting
  import Strings

  /** The names to keep: the comma-separated selection, or the whole header
      when the selection is empty. */
  function SelectionList(selected: string, headers: Row): (cols: seq<string>)
    ensures selected == "" ==> cols == headers
    ensures selected != "" ==> Strings.Join(cols, ',') == selected
    ensures selected != "" ==> forall k :: 0 <= k < |cols| ==> ',' !in cols[k]
  {
    if selected == "" then headers
    else
      Strings.JoinSplit(selected, ',');
      Strings.Split(selected, ',')
  }

  /** Column `k` is the first selected name the header lacks. */
  predicate FirstMissing(cols: seq<string>, headers: Row, k: nat)
  {
    && k < |cols|
    && cols[k] !in headers
    && forall j :: 0 <= j < k ==> cols[j] in headers
  }

  /** The check loop: the first selected name not in the header, if any. */
  function MissingColumn(cols: seq<string>, headers: Row): (r: Option<string>)
    ensures r.None? <==> forall k :: 0 <= k < |cols| ==> cols[k] in headers
    ensures r.Some? ==> exists k: nat :: FirstMissing(cols, headers, k) && r.value == cols[k]
    decreases |cols|
  {
    if |cols| == 0 then None
    else if cols[0] !in headers then
      assert FirstMissing(cols, headers, 0);
      Some(cols[0])
    else
      var rest := MissingColumn(cols[1..], headers);
      assert forall k :: 0 < k < |cols| ==> cols[k] == cols[1..][k - 1];
      assert forall k: nat :: FirstMissing(cols[1..], headers, k) ==> FirstMissing(cols, headers, k + 1);
      rest
  }

  /** `[headers.index(col) for col in cols]`. */
  function Positions(cols: seq<string>, headers: Row): (ps: seq<nat>)
    requires forall k :: 0 <= k < |cols| ==> cols[k] in headers
    ensures |ps| == |cols|
    ensures forall k :: 0 <= k < |cols| ==> ps[k] < |headers| && headers[ps[k]] == cols[k]
    ensures forall k :: 0 <= k < |cols| ==> ps[k] == IndexOf(headers, cols[k])
    decreases |cols|
  {
    if |cols| == 0 then []
    else [IndexOf(headers, cols[0])] + Positions(cols[1..], headers)
  }

  /** Position `i` occurs in the looked-up positions once per selected
      name that first occurs at `i` in the header, and never otherwise. */
  lemma PositionsCount(cols: seq<string>, headers: Row, i: nat)
    requires forall k :: 0 <= k < |cols| ==> cols[k] in headers
    ensures multiset(Positions(cols, headers))[i] ==
            if i < |headers| && IndexOf(headers, headers[i]) == i then multiset(cols)[headers[i]] else 0
  {
    var ps := Positions(cols, headers);
    if i < |headers| && IndexOf(headers, headers[i]) == i {
      forall k | 0 <= k < |ps| ensures ps[k] == i <==> cols[k] == headers[i] {
        if cols[k] == headers[i] {
          assert ps[k] == IndexOf(headers, headers[i]);
        }
      }
      CountsMatch(ps, cols, i, headers[i]);
    } else {
      forall k | 0 <= k < |ps| ensures ps[k] != i {
        assert ps[k] == IndexOf(headers, headers[ps[k]]);
      }
      assert i !in multiset(ps);
    }
  }

  /** Two lists of the same length that hold `x` and `y` at the same
      places hold them equally often. */
  lemma {:induction false} CountsMatch<S, T>(a: seq<S>, b: seq<T>, x: S, y: T)
    requires |a| == |b|
    requires forall k :: 0 <= k < |a| ==> (a[k] == x <==> b[k] == y)
    ensures multiset(a)[x] == multiset(b)[y]
    decreases |a|
  {
    if |a| > 0 {
      forall k | 0 <= k < |a| - 1 ensures a[1..][k] == x <==> b[1..][k] == y {
        assert a[1..][k] == a[k + 1] && b[1..][k] == b[k + 1];
      }
      CountsMatch(a[1..], b[1..], x, y);
      assert multiset(a)[x] == (if a[0] == x then 1 else 0) + multiset(a[1..])[x] by {
        assert a == [a[0]] + a[1..];
        CountCons(a[0], a[1..], x);
      }
      assert multiset(b)[y] == (if b[0] == y then 1 else 0) + multiset(b[1..])[y] by {
        assert b == [b[0]] + b[1..];
        CountCons(b[0], b[1..], y);
      }
    }
  }

  /** Occurrences of `y` in a list with `x` in front. */
  lemma CountCons<T>(x: T, s: seq<T>, y: T)
    ensures multiset([x] + s)[y] == (if x == y then 1 else 0) + multiset(s)[y]
  {
    assert multiset([x] + s) == multiset{x} + multiset(s);
  }

  /** Selections naming the same columns equally often look up the same
      positions, whatever their order. */
  lemma PositionsIgnoreOrder(cols1: seq<string>, cols2: seq<string>, headers: Row)
    requires forall k :: 0 <= k < |cols1| ==> cols1[k] in headers
    requires multiset(cols1) == multiset(cols2)
    ensures forall k :: 0 <= k < |cols2| ==> cols2[k] in headers
    ensures multiset(Positions(cols1, headers)) == multiset(Positions(cols2, headers))
  {
    forall k | 0 <= k < |cols2| ensures cols2[k] in headers {
      assert cols2[k] in multiset(cols1);
    }
    forall i: nat ensures multiset(Positions(cols1, headers))[i] == multiset(Positions(cols2, headers))[i] {
      PositionsCount(cols1, headers, i);
      PositionsCount(cols2, headers, i);
    }
  }

  /** The check loop and `selected_indices.sort()`: every selected name
      must be in the header; their positions are then sorted, which puts
      them in header order and discards the order they were selected in. */
  function SelectIndices(cols: seq<string>, headers: Row): (r: Result<seq<nat>, Error>)
    ensures r.Success? <==> forall k :: 0 <= k < |cols| ==> cols[k] in headers
    ensures r.Failure? ==> exists k: nat :: FirstMissing(cols, headers, k) && r.error == HeaderNotFound(cols[k])
    ensures r.Success? ==> Sorted(r.value) && |r.value| == |cols|
    ensures r.Success? ==> forall k :: 0 <= k < |r.value| ==> r.value[k] < |headers|
    ensures r.Success? ==> multiset(r.value) == multiset(Positions(cols, headers))
  {
    match MissingColumn(cols, headers)
    case Some(c) => Failure(HeaderNotFound(c))
    case None =>
      var idx := Sort(Positions(cols, headers));
      assert |idx| == |multiset(idx)| == |cols|;
      assert forall k :: 0 <= k < |idx| ==> idx[k] < |headers| by {
        forall k | 0 <= k < |idx| ensures idx[k] < |headers| {
          assert idx[k] in multiset(Positions(cols, headers));
        }
      }
      Success(idx)
  }

  /** `[row[i] for i in idx]`. */
  function Project(row: Row, idx: seq<nat>): (r: Row)
    requires forall k :: 0 <= k < |idx| ==> idx[k] < |row|
    ensures |r| == |idx|
    ensures forall k :: 0 <= k < |idx| ==> r[k] == row[idx[k]]
  {
    seq(|idx|, k requires 0 <= k < |idx| => row[idx[k]])
  }

  /** `apply_filters` against a fixed header and filter list, as the
      per-row test the list comprehension applies. */
  function RowTest(headers: Row, filters: seq<Filter>): Row -> Result<bool, Error>
  {
    row => ApplyFilters(row, headers, filters)
  }

  /** Every row is tested without an error. */
  predicate AllEvaluate(rows: seq<Row>, test: Row -> Result<bool, Error>)
  {
    forall i :: 0 <= i < |rows| ==> test(rows[i]).Success?
  }

  /** Row `i` is the first whose test raises an error. */
  predicate FirstErrorRow(rows: seq<Row>, test: Row -> Result<bool, Error>, i: nat)
  {
    i < |rows| && test(rows[i]).Failure? && AllEvaluate(rows[..i], test)
  }

  /** `[row for row in rows if apply_filters(row, headers, filters)]`: the
      rows the test accepts, tested in order; the first error stops. */
  function FilterRows(rows: seq<Row>, test: Row -> Result<bool, Error>): (r: Result<seq<Row>, Error>)
    ensures r.Success? <==> AllEvaluate(rows, test)
    ensures r.Success? ==> |r.value| <= |rows|
    ensures r.Success? ==> forall k :: 0 <= k < |r.value| ==> test(r.value[k]) == Success(true)
    decreases |rows|
  {
    if |rows| == 0 then Success([])
    else
      match test(rows[0])
      case Failure(e) => Failure(e)
      case Success(keep) =>
        var rest := FilterRows(rows[1..], test);
        assert forall i :: 0 < i < |rows| ==> rows[i] == rows[1..][i - 1];
        if rest.Failure? then Failure(rest.error)
        else if keep then Success([rows[0]] + rest.value)
        else Success(rest.value)
  }

  /** An error is the one raised by the first row whose test fails. */
  lemma {:induction false} FilterRowsFirstError(rows: seq<Row>, test: Row -> Result<bool, Error>)
    requires FilterRows(rows, test).Failure?
    ensures exists i: nat :: FirstErrorRow(rows, test, i) && test(rows[i]).error == FilterRows(rows, test).error
    decreases |rows|
  {
    if test(rows[0]).Failure? {
      assert FirstErrorRow(rows, test, 0);
    } else {
      FilterRowsFirstError(rows[1..], test);
      var i: nat :| FirstErrorRow(rows[1..], test, i)
             && test(rows[1..][i]).error == FilterRows(rows[1..], test).error;
      assert rows[..i + 1] == [rows[0]] + rows[1..][..i];
      assert FirstErrorRow(rows, test, i + 1);
    }
  }

  predicate StrictlyIncreasing(s: seq<nat>)
  {
    forall i, j :: 0 <= i < j < |s| ==> s[i] < s[j]
  }

  /** The kept rows are exactly the accepted input rows, in their input
      order: `kept` lists their positions. */
  lemma {:induction false} FilterRowsKeepsOrder(rows: seq<Row>, test: Row -> Result<bool, Error>)
    returns (kept: seq<nat>)
    requires FilterRows(rows, test).Success?
    ensures StrictlyIncreasing(kept)
    ensures forall j :: 0 <= j < |kept| ==> kept[j] < |rows|
    ensures |kept| == |FilterRows(rows, test).value|
    ensures forall j :: 0 <= j < |kept| ==> FilterRows(rows, test).value[j] == rows[kept[j]]
    ensures forall i {:trigger i in kept} :: 0 <= i < |rows| ==> (i in kept <==> test(rows[i]) == Success(true))
    decreases |rows|
  {
    if |rows| == 0 {
      kept := [];
    } else {
      var out := FilterRows(rows, test).value;
      var tail := FilterRowsKeepsOrder(rows[1..], test);
      var outTail := FilterRows(rows[1..], test).value;
      var shifted := ShiftPositions(rows, test, outTail, tail);
      if test(rows[0]) == Success(true) {
        assert out == [rows[0]] + outTail;
        kept := KeepFirst(shifted, |rows|);
        KeepFirstPositions(rows, outTail, shifted, kept);
      } else {
        assert out == outTail;
        kept := shifted;
      }
    }
  }

  /** The positions of the rows kept from `rows[1..]`, as positions into `rows`. */
  lemma ShiftPositions(rows: seq<Row>, test: Row -> Result<bool, Error>, outTail: seq<Row>, tail: seq<nat>)
    returns (shifted: seq<nat>)
    requires |rows| > 0 && StrictlyIncreasing(tail)
    requires forall j :: 0 <= j < |tail| ==> tail[j] < |rows| - 1
    requires |tail| == |outTail|
    requires forall j :: 0 <= j < |tail| ==> outTail[j] == rows[1..][tail[j]]
    requires forall i {:trigger i in tail} :: 0 <= i < |rows| - 1 ==> (i in tail <==> test(rows[1..][i]) == Success(true))
    ensures shifted == Shift(tail, |rows| - 1)
    ensures forall j :: 0 <= j < |shifted| ==> outTail[j] == rows[shifted[j]]
    ensures forall i {:trigger i in shifted} :: 0 < i < |rows| ==> (i in shifted <==> test(rows[i]) == Success(true))
  {
    shifted := Shift(tail, |rows| - 1);
    forall j | 0 <= j < |shifted| ensures outTail[j] == rows[shifted[j]] {
      assert rows[shifted[j]] == rows[1..][tail[j]];
    }
    forall i | 0 < i < |rows| ensures i in shifted <==> test(rows[i]) == Success(true) {
      assert rows[i] == rows[1..][i - 1];
    }
  }

  /** With the first row kept, position 0 goes in front. */
  lemma KeepFirstPositions(rows: seq<Row>, outTail: seq<Row>, shifted: seq<nat>, kept: seq<nat>)
    requires |rows| > 0 && |kept| == |shifted| + 1 && kept[0] == 0
    requires forall j :: 0 < j < |kept| ==> kept[j] == shifted[j - 1] < |rows|
    requires |shifted| == |outTail|
    requires forall j :: 0 <= j < |shifted| ==> shifted[j] < |rows| && outTail[j] == rows[shifted[j]]
    ensures forall j :: 0 <= j < |kept| ==> ([rows[0]] + outTail)[j] == rows[kept[j]]
  {
    forall j | 0 <= j < |kept| ensures ([rows[0]] + outTail)[j] == rows[kept[j]] {
      if j > 0 {
        assert ([rows[0]] + outTail)[j] == outTail[j - 1];
      }
    }
  }

  /** Position 0 put in front of positions that are all past it. */
  function KeepFirst(shifted: seq<nat>, n: nat): (r: seq<nat>)
    requires StrictlyIncreasing(shifted)
    requires forall j :: 0 <= j < |shifted| ==> 0 < shifted[j] < n
    ensures |r| == |shifted| + 1 && r[0] == 0 && StrictlyIncreasing(r)
    ensures forall j :: 0 < j < |r| ==> r[j] == shifted[j - 1]
    ensures forall i :: 0 <= i < n ==> (i in r <==> i == 0 || i in shifted)
  {
    [0] + shifted
  }

  /** Positions into `s[1..]` turned into positions into `s`. */
  function Shift(tail: seq<nat>, n: nat): (r: seq<nat>)
    requires StrictlyIncreasing(tail)
    requires forall j :: 0 <= j < |tail| ==> tail[j] < n
    ensures |r| == |tail| && StrictlyIncreasing(r)
    ensures forall j :: 0 <= j < |r| ==> r[j] == tail[j] + 1 && 0 < r[j] <= n
    ensures forall i :: 0 < i <= n ==> (i in r <==> i - 1 in tail)
  {
    var r := seq(|tail|, j requires 0 <= j < |tail| => tail[j] + 1);
    ShiftMembers(tail, r, n);
    r
  }

  /** Adding one to every position moves exactly the positions below `n`. */
  lemma ShiftMembers(tail: seq<nat>, r: seq<nat>, n: nat)
    requires |r| == |tail|
    requires forall j :: 0 <= j < |r| ==> r[j] == tail[j] + 1
    ensures forall i :: 0 < i <= n ==> (i in r <==> i - 1 in tail)
  {
    forall i | 0 < i <= n ensures i in r <==> i - 1 in tail {
      if i - 1 in tail {
        var j :| 0 <= j < |tail| && tail[j] == i - 1;
        assert r[j] == i;
      }
      if i in r {
        var j :| 0 <= j < |r| && r[j] == i;
        assert tail[j] == i - 1;
      }
    }
  }

  /** `[[row[i] for i in selected_indices] for row in filtered_rows]`:
      every kept row projected through the same positions; a row too short
      for them raises an error. */
  function ProjectRows(rows: seq<Row>, idx: seq<nat>): (r: Result<seq<Row>, Error>)
    ensures r.Success? <==> forall i, k :: 0 <= i < |rows| && 0 <= k < |idx| ==> idx[k] < |rows[i]|
    ensures r.Failure? ==> r.error == RowTooShort
    ensures r.Success? ==> |r.value| == |rows|
    ensures r.Success? ==> forall i :: 0 <= i < |rows| ==> |r.value[i]| == |idx|
    ensures r.Success? ==> forall i, k :: 0 <= i < |rows| && 0 <= k < |idx| ==> r.value[i][k] == rows[i][idx[k]]
    decreases |rows|
  {
    if |rows| == 0 then Success([])
    else if exists k :: 0 <= k < |idx| && idx[k] >= |rows[0]| then Failure(RowTooShort)
    else
      var rest := ProjectRows(rows[1..], idx);
      assert forall i :: 0 < i < |rows| ==> rows[i] == rows[1..][i - 1];
      if rest.Failure? then Failure(RowTooShort)
      else Success([Project(rows[0], idx)] + rest.value)
  }

  /** The output table: the selected header, then the kept rows projected. */
  function Process(t: Table, selected: string, rowFilters: string): (r: Result<seq<Row>, Error>)
    ensures r.Success? ==> 1 <= |r.value| <= |t.rows| + 1
    ensures r.Success? ==> forall j :: 0 <= j < |r.value| ==> |r.value[j]| == |r.value[0]|
  {
    var filters :- ParseFilters(rowFilters);
    var idx :- SelectIndices(SelectionList(selected, t.header), t.header);
    Assemble(t, filters, idx)
  }

  /** The output table of `process_csv_data` once the filters and sorted
      positions are known: the sorted header names, then the filtered rows
      projected. */
  function Assemble(t: Table, filters: seq<Filter>, idx: seq<nat>): (r: Result<seq<Row>, Error>)
    requires forall k :: 0 <= k < |idx| ==> idx[k] < |t.header|
    ensures r.Success? ==> 1 <= |r.value| <= |t.rows| + 1
    ensures r.Success? ==> forall j :: 0 <= j < |r.value| ==> |r.value[j]| == |idx|
  {
    var kept :- FilterRows(t.rows, RowTest(t.header, filters));
    var body :- ProjectRows(kept, idx);
    Success([Project(t.header, idx)] + body)
  }

  /** `process_csv_data` without the file write: the output text, or the
      error that stopped it. */
  function ProcessCsvData(csv: string, selected: string, rowFilters: string): (r: Result<string, Error>)
    ensures csv == "" ==> r == Failure(NoHeaderRow)
  {
    var t :- ParseTable(csv);
    var out :- Process(t, selected, rowFilters);
    Success(Render(out))
  }
}
