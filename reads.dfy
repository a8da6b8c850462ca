/**
 * The GET path: the header row zipped with each data row gives a record, the query
 * parameters that name a header give an equality filter, and the records that pass
 * every filter come back in grid order.
 */
module Reads {
  import opened Cells
  import opened Protocol
  import opened Sheets

  /** `rowData` for one data row: header j gets cell j. A later duplicate header
      overwrites an earlier one; a header past the end of the row gets `undefined`. */
  function Zip(headers: seq<Value>, row: seq<Value>): Record
    decreases |headers|
  {
    if headers == [] then map[]
    else
      var j := |headers| - 1;
      var rec := Zip(headers[..j], row);
      if j < |row| then rec[headers[j] := row[j]] else rec - {headers[j]}
  }

  /** Header j gets cell j unless a later header has the same name, and a header past
      the end of the row is left undefined; in particular the last of several equal
      headers decides their common key. */
  lemma {:induction false} ZipLastWins(headers: seq<Value>, row: seq<Value>, j: int)
    requires 0 <= j < |headers| && forall l :: j < l < |headers| ==> headers[l] != headers[j]
    ensures j < |row| ==> headers[j] in Zip(headers, row) && Zip(headers, row)[headers[j]] == row[j]
    ensures j >= |row| ==> headers[j] !in Zip(headers, row)
    decreases |headers|
  {
    var n := |headers| - 1;
    if j < n {
      assert forall l :: j < l < n ==> headers[..n][l] == headers[l];
      ZipLastWins(headers[..n], row, j);
      assert headers[..n][j] == headers[j];
    }
  }

  /** Every key of a record is a header name. */
  lemma {:induction false} ZipKeysAreHeaders(headers: seq<Value>, row: seq<Value>)
    ensures forall h :: h in Zip(headers, row) ==> h in headers
    decreases |headers|
  {
    if headers != [] {
      var n := |headers| - 1;
      ZipKeysAreHeaders(headers[..n], row);
      assert headers == headers[..n] + [headers[n]];
    }
  }

  /** With a full row, the record has exactly the header names as keys. */
  lemma {:induction false} ZipKeys(headers: seq<Value>, row: seq<Value>)
    requires |headers| <= |row|
    ensures Zip(headers, row).Keys == set h | h in headers
    decreases |headers|
  {
    if headers != [] {
      var n := |headers| - 1;
      var init := headers[..n];
      ZipKeys(init, row);
      assert headers == init + [headers[n]];
    }
  }

  /** With distinct headers and a full row, the record is the positional zip:
      header j maps to cell j. */
  lemma {:induction false} ZipPositional(headers: seq<Value>, row: seq<Value>)
    requires Distinct(headers) && |headers| <= |row|
    ensures forall j :: 0 <= j < |headers| ==> headers[j] in Zip(headers, row) && Zip(headers, row)[headers[j]] == row[j]
    decreases |headers|
  {
    if headers != [] {
      var n := |headers| - 1;
      var init := headers[..n];
      assert Distinct(init) by {
        forall i, j | 0 <= i < j < n ensures init[i] != init[j] {
          assert init[i] == headers[i] && init[j] == headers[j];
        }
      }
      ZipPositional(init, row);
      forall j | 0 <= j < n ensures headers[j] in Zip(headers, row) && Zip(headers, row)[headers[j]] == row[j] {
        assert init[j] == headers[j] && headers[j] != headers[n];
      }
    }
  }

  /** `filters`: the query parameters, other than `sheetName`, whose name is a header. */
  function Filters(params: map<string, string>, headers: seq<Value>): map<Value, Value>
  {
    map k | k in params && k != "sheetName" && k in headers :: params[k]
  }

  /** The record passes every filter: `rowData[column] == filters[column]` for each. */
  predicate Matches(rec: Record, filters: map<Value, Value>)
  {
    forall k :: k in filters ==> k in rec && rec[k] == filters[k]
  }

  /** `jsonData`: the records of the data rows that pass the filters, pushed in row order. */
  function Select(headers: seq<Value>, data: Grid, filters: map<Value, Value>): seq<Record>
    decreases |data|
  {
    if data == [] then []
    else
      var n := |data| - 1;
      var rec := Zip(headers, data[n]);
      Select(headers, data[..n], filters) + (if Matches(rec, filters) then [rec] else [])
  }

  /** The numbers (from 0) of the data rows whose records pass the filters, in order. */
  function Passing(headers: seq<Value>, data: Grid, filters: map<Value, Value>): seq<int>
    decreases |data|
  {
    if data == [] then []
    else
      var n := |data| - 1;
      Passing(headers, data[..n], filters) + (if Matches(Zip(headers, data[n]), filters) then [n] else [])
  }

  /** A data row is among the passing rows exactly when its record passes the filters. */
  lemma {:induction false} PassingExact(headers: seq<Value>, data: Grid, filters: map<Value, Value>)
    ensures forall k :: 0 <= k < |Passing(headers, data, filters)| ==> 0 <= Passing(headers, data, filters)[k] < |data|
    ensures forall i :: 0 <= i < |data| ==>
      (i in Passing(headers, data, filters) <==> Matches(Zip(headers, data[i]), filters))
    decreases |data|
  {
    if data != [] {
      var n := |data| - 1;
      var init := Passing(headers, data[..n], filters);
      PassingExact(headers, data[..n], filters);
      var ix := Passing(headers, data, filters);
      assert ix == init + (if Matches(Zip(headers, data[n]), filters) then [n] else []);
      forall i | 0 <= i < |data|
        ensures i in ix <==> Matches(Zip(headers, data[i]), filters)
      {
        if i < n {
          assert data[..n][i] == data[i];
        } else {
          assert n !in init;
        }
      }
    }
  }

  /** The pushed records are the records of the passing rows, in that order. */
  lemma {:induction false} PassingSelects(headers: seq<Value>, data: Grid, filters: map<Value, Value>)
    requires forall k :: 0 <= k < |Passing(headers, data, filters)| ==> 0 <= Passing(headers, data, filters)[k] < |data|
    ensures |Passing(headers, data, filters)| == |Select(headers, data, filters)|
    ensures forall k :: 0 <= k < |Passing(headers, data, filters)| ==>
      Select(headers, data, filters)[k] == Zip(headers, data[Passing(headers, data, filters)[k]])
    decreases |data|
  {
    if data != [] {
      var n := |data| - 1;
      var init := Passing(headers, data[..n], filters);
      var prev := Select(headers, data[..n], filters);
      var rec := Zip(headers, data[n]);
      assert Passing(headers, data, filters) == init + (if Matches(rec, filters) then [n] else []);
      assert forall k :: 0 <= k < |init| ==> init[k] == Passing(headers, data, filters)[k];
      PassingExact(headers, data[..n], filters);
      PassingSelects(headers, data[..n], filters);
      assert forall k :: 0 <= k < |init| ==> data[..n][init[k]] == data[init[k]];
    }
  }

  /** The passing rows come in increasing order. */
  lemma {:induction false} PassingIncreasing(headers: seq<Value>, data: Grid, filters: map<Value, Value>)
    ensures forall k, l :: 0 <= k < l < |Passing(headers, data, filters)| ==>
      Passing(headers, data, filters)[k] < Passing(headers, data, filters)[l]
    decreases |data|
  {
    if data != [] {
      var n := |data| - 1;
      PassingIncreasing(headers, data[..n], filters);
      PassingExact(headers, data[..n], filters);
    }
  }

  /** Every pushed record passes the filters. */
  lemma {:induction false} SelectMatches(headers: seq<Value>, data: Grid, filters: map<Value, Value>)
    ensures forall rec :: rec in Select(headers, data, filters) ==> Matches(rec, filters)
    decreases |data|
  {
    if data != [] {
      var n := |data| - 1;
      SelectMatches(headers, data[..n], filters);
    }
  }

  /** The response to a GET on a sheet whose grid is `g`. */
  function Read(g: Grid, params: map<string, string>): (r: Response)
    ensures r.Err? <==> |g| < 2
    ensures r.Err? ==> r.failure == NotEnoughData
    ensures r.Ok? ==> r.outcome.Records?
  {
    if |g| < 2 then Err(NotEnoughData)
    else Ok(Records(Select(g[0], g[1..], Filters(params, g[0]))))
  }

  /** Positions in `g[1..]` as positions in `g`: indices from 0, the header row being
      `g[0]`, so the service's row r is index r - 1. */
  function Shift(ix: seq<int>): (rows: seq<int>)
    ensures |rows| == |ix| && forall k :: 0 <= k < |ix| ==> rows[k] == ix[k] + 1
  {
    seq(|ix|, k requires 0 <= k < |ix| => ix[k] + 1)
  }

  lemma ShiftMembers(ix: seq<int>)
    ensures forall i :: i in Shift(ix) <==> i - 1 in ix
  {
    var rows := Shift(ix);
    forall i ensures i in rows <==> i - 1 in ix {
      if i - 1 in ix {
        var k :| 0 <= k < |ix| && ix[k] == i - 1;
        assert rows[k] == i;
      }
    }
  }

  /** The indices in `g` (from 0; service row r - 1) of the rows whose records a GET
      returns. */
  function MatchingRows(g: Grid, params: map<string, string>): seq<int>
    requires |g| >= 2
  {
    Shift(Passing(g[0], g[1..], Filters(params, g[0])))
  }

  /** A data row, index 1..|g|-1 in `g`, is listed exactly when its record passes the filters. */
  lemma MatchingRowsExact(g: Grid, params: map<string, string>)
    requires |g| >= 2
    ensures forall i :: 1 <= i < |g| ==>
      (i in MatchingRows(g, params) <==> Matches(Zip(g[0], g[i]), Filters(params, g[0])))
  {
    var data, f := g[1..], Filters(params, g[0]);
    PassingExact(g[0], data, f);
    ShiftMembers(Passing(g[0], data, f));
    assert forall i :: 1 <= i < |g| ==> data[i - 1] == g[i];
  }

  /** Record k is the record of the k-th listed row. */
  lemma MatchingRowsRecords(g: Grid, params: map<string, string>)
    requires |g| >= 2
    ensures var recs, rows := Read(g, params).outcome.records, MatchingRows(g, params);
      |recs| == |rows| && forall k :: 0 <= k < |rows| ==> 1 <= rows[k] < |g| && recs[k] == Zip(g[0], g[rows[k]])
  {
    var data, f := g[1..], Filters(params, g[0]);
    var ix := Passing(g[0], data, f);
    PassingExact(g[0], data, f);
    PassingSelects(g[0], data, f);
    assert forall k :: 0 <= k < |ix| ==> data[ix[k]] == g[ix[k] + 1];
  }

  /** The result is exactly the records of the data rows that pass the filters, each
      once, in grid order: `rows` lists their indices in `g` (from 0, so the service's
      row r is index r - 1), increasing, and every data row that passes is listed. */
  lemma ReadKeepsGridOrder(g: Grid, params: map<string, string>) returns (rows: seq<int>)
    requires |g| >= 2
    ensures var recs := Read(g, params).outcome.records;
      |recs| == |rows|
      && (forall k :: 0 <= k < |rows| ==> 1 <= rows[k] < |g| && recs[k] == Zip(g[0], g[rows[k]]))
      && (forall k, l :: 0 <= k < l < |rows| ==> rows[k] < rows[l])
    ensures forall i :: 1 <= i < |g| ==> (i in rows <==> Matches(Zip(g[0], g[i]), Filters(params, g[0])))
  {
    rows := MatchingRows(g, params);
    PassingIncreasing(g[0], g[1..], Filters(params, g[0]));
    MatchingRowsRecords(g, params);
    MatchingRowsExact(g, params);
  }

  /** Every returned record equals each filter value on that filter's column. */
  lemma ReadMatchesFilters(g: Grid, params: map<string, string>)
    requires |g| >= 2
    ensures forall rec, p ::
      rec in Read(g, params).outcome.records && p in params && p != "sheetName" && p in g[0] ==> p in rec && rec[p] == params[p]
  {
    SelectMatches(g[0], g[1..], Filters(params, g[0]));
  }

  /** A row whose record passes the filters contributes its record. */
  lemma {:induction false} SelectFinds(headers: seq<Value>, data: Grid, filters: map<Value, Value>, i: int)
    requires 0 <= i < |data| && Matches(Zip(headers, data[i]), filters)
    ensures Zip(headers, data[i]) in Select(headers, data, filters)
    decreases |data|
  {
    var n := |data| - 1;
    if i < n {
      assert data[..n][i] == data[i];
      SelectFinds(headers, data[..n], filters, i);
    }
  }

  /** A record that agrees with every query parameter naming a header passes the filters. */
  lemma FiltersAgree(params: map<string, string>, headers: seq<Value>, rec: Record)
    requires forall p :: p in params && p != "sheetName" && p in headers ==> p in rec && rec[p] == params[p]
    ensures Matches(rec, Filters(params, headers))
  {
    var f := Filters(params, headers);
    forall k | k in f ensures k in rec && rec[k] == f[k] {
      assert k in params && k != "sheetName" && k in headers;
    }
  }

  /** A data row whose record agrees with every filter is returned: in particular a
      query built from one row's own values finds that row. */
  lemma ReadFindsMatchingRow(g: Grid, params: map<string, string>, i: int)
    requires 1 <= i < |g|
    requires forall p :: p in params && p != "sheetName" && p in g[0] ==>
      p in Zip(g[0], g[i]) && Zip(g[0], g[i])[p] == params[p]
    ensures Zip(g[0], g[i]) in Read(g, params).outcome.records
  {
    var data := g[1..];
    FiltersAgree(params, g[0], Zip(g[0], g[i]));
    assert data[i - 1] == g[i];
    SelectFinds(g[0], data, Filters(params, g[0]), i - 1);
  }

  /** When every row passes, every record is pushed, in row order. */
  lemma {:induction false} SelectAll(headers: seq<Value>, data: Grid, filters: map<Value, Value>)
    requires forall i :: 0 <= i < |data| ==> Matches(Zip(headers, data[i]), filters)
    ensures |Select(headers, data, filters)| == |data|
    ensures forall k :: 0 <= k < |data| ==> Select(headers, data, filters)[k] == Zip(headers, data[k])
    decreases |data|
  {
    if data != [] {
      var n := |data| - 1;
      assert forall i :: 0 <= i < n ==> data[..n][i] == data[i];
      SelectAll(headers, data[..n], filters);
    }
  }

  /** Without a filter every data row comes back: N - 1 records, in grid order. */
  lemma ReadUnfiltered(g: Grid, params: map<string, string>)
    requires |g| >= 2
    requires forall p :: p in params && p != "sheetName" ==> p !in g[0]
    ensures |Read(g, params).outcome.records| == |g| - 1
    ensures forall k :: 0 <= k < |g| - 1 ==> Read(g, params).outcome.records[k] == Zip(g[0], g[k + 1])
  {
    var data, f := g[1..], Filters(params, g[0]);
    assert f == map[];
    SelectAll(g[0], data, f);
  }

  /** The `for (var param in e.parameter)` loop that builds `filters`. */
  method CollectFilters(params: map<string, string>, headers: seq<Value>) returns (filters: map<Value, Value>)
    ensures forall k :: k in filters <==> k in params && k != "sheetName" && k in headers
    ensures forall k :: k in filters ==> filters[k] == params[k]
  {
    filters := map[];
    var todo := params.Keys;
    while todo != {}
      invariant todo <= params.Keys
      invariant forall k :: k in filters <==> k in params && k !in todo && k != "sheetName" && k in headers
      invariant forall k :: k in filters ==> filters[k] == params[k]
      decreases |todo|
    {
      var param :| param in todo;
      if param != "sheetName" && param in headers {
        filters := filters[param := params[param]];
      }
      todo := todo - {param};
    }
  }

  /** The inner `for (var j …)` loop that builds `rowData`. */
  method ZipRow(headers: seq<Value>, row: seq<Value>) returns (rowData: Record)
    ensures rowData == Zip(headers, row)
  {
    rowData := map[];
    var j := 0;
    while j < |headers|
      invariant 0 <= j <= |headers|
      invariant rowData == Zip(headers[..j], row)
    {
      assert headers[..j + 1][..j] == headers[..j];
      if j < |row| {
        rowData := rowData[headers[j] := row[j]];
      } else {
        rowData := rowData - {headers[j]};
      }
      j := j + 1;
    }
    assert headers[..j] == headers;
  }

  /** The `for (var column in filters)` loop with its `break`. */
  method MatchRow(rowData: Record, filters: map<Value, Value>) returns (matched: bool)
    ensures matched <==> forall k :: k in filters ==> k in rowData && rowData[k] == filters[k]
  {
    matched := true;
    var pending := filters.Keys;
    while matched && pending != {}
      invariant pending <= filters.Keys
      invariant matched ==> forall k :: k in filters && k !in pending ==> k in rowData && rowData[k] == filters[k]
      invariant !matched ==> exists k :: k in filters && !(k in rowData && rowData[k] == filters[k])
      decreases |pending|
    {
      var column :| column in pending;
      if column !in rowData || rowData[column] != filters[column] {
        matched := false;
      }
      pending := pending - {column};
    }
  }

  /** The body of `doGet` once the sheet is resolved: the data-range values, the
      filters, and the loop over the data rows that pushes the matching records. */
  method ReadRecords(values: Grid, params: map<string, string>) returns (resp: Response)
    ensures resp == Read(values, params)
  {
    if |values| < 2 {
      return Err(NotEnoughData);
    }
    var headers := values[0];
    var filters := CollectFilters(params, headers);
    assert filters == Filters(params, headers);
    var jsonData: seq<Record> := [];
    var i := 1;
    while i < |values|
      invariant 1 <= i <= |values|
      invariant jsonData == Select(headers, values[1..i], filters)
    {
      var rowData := ZipRow(headers, values[i]);
      var matched := MatchRow(rowData, filters);
      ghost var done := values[1..i + 1];
      assert done[..i - 1] == values[1..i] && done[i - 1] == values[i];
      assert Select(headers, done, filters)
        == Select(headers, values[1..i], filters) + (if Matches(rowData, filters) then [rowData] else []);
      if matched {
        jsonData := jsonData + [rowData];
      }
      i := i + 1;
    }
    assert values[1..i] == values[1..];
    return Ok(Records(jsonData));
  }

  /** `doGet(e)`: resolve the sheet named by `sheetName`, then read it. */
  method DoGet(book: Spreadsheet, params: map<string, string>) returns (resp: Response)
    ensures var found := GetSheetByName(book, Param(params, "sheetName"));
      resp == if found.Missing? then Err(found.failure) else Read(found.sheet.cells, params)
  {
    var found := GetSheetByName(book, Param(params, "sheetName"));
    if found.Missing? {
      return Err(found.failure);
    }
    resp := ReadRecords(found.sheet.cells, params);
  }
}
