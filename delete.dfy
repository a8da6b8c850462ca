/**
 * `handleDelete`: delete several rows. The row numbers are sorted from the largest
 * down, so that deleting one row does not renumber the rows still to be deleted;
 * a row the service rejects is reported and the deletions after it go on.
 */
module MultiDelete {
  import opened Cells
  import opened Protocol
  import opened Sheets

  predicate Descending(s: seq<int>)
  {
    forall i, j :: 0 <= i < j < |s| ==> s[i] >= s[j]
  }

  predicate StrictlyDescending(s: seq<int>)
  {
    forall i, j :: 0 <= i < j < |s| ==> s[i] > s[j]
  }

  /** Inserts `x` before the first element that is not larger. */
  function InsertDescending(x: int, s: seq<int>): (r: seq<int>)
    ensures |r| == |s| + 1 && (r[0] == x || (s != [] && r[0] == s[0]))
    decreases |s|
  {
    if s == [] || x >= s[0] then [x] + s
    else [s[0]] + InsertDescending(x, s[1..])
  }

  /** Inserting adds `x` and loses nothing. */
  lemma {:induction false} InsertPermutes(x: int, s: seq<int>)
    ensures multiset(InsertDescending(x, s)) == multiset(s) + multiset{x}
    decreases |s|
  {
    if s != [] && x < s[0] {
      InsertPermutes(x, s[1..]);
      assert s == [s[0]] + s[1..];
    }
  }

  /** Inserting into a non-increasing sequence keeps it so. */
  lemma {:induction false} InsertSorted(x: int, s: seq<int>)
    requires Descending(s)
    ensures Descending(InsertDescending(x, s))
    decreases |s|
  {
    if s != [] && x < s[0] {
      var tail := s[1..];
      var rest := InsertDescending(x, tail);
      assert Descending(tail);
      InsertSorted(x, tail);
      assert rest[0] <= s[0];
      assert forall k :: 0 <= k < |rest| ==> rest[k] <= s[0];
      var r := [s[0]] + rest;
      assert forall i, j :: 0 <= i < j < |r| ==> r[i] >= r[j] by {
        assert forall j :: 1 <= j < |r| ==> r[j] == rest[j - 1];
      }
    }
  }

  /** Inserting a number not yet present keeps a strictly decreasing sequence so. */
  lemma {:induction false} InsertFresh(x: int, s: seq<int>)
    requires StrictlyDescending(s) && x !in s
    ensures StrictlyDescending(InsertDescending(x, s))
    decreases |s|
  {
    if s != [] && x < s[0] {
      var tail := s[1..];
      var rest := InsertDescending(x, tail);
      assert StrictlyDescending(tail) && x !in tail;
      InsertFresh(x, tail);
      assert rest[0] < s[0];
      assert forall k :: 0 <= k < |rest| ==> rest[k] < s[0];
      var r := [s[0]] + rest;
      assert forall i, j :: 0 <= i < j < |r| ==> r[i] > r[j] by {
        assert forall j :: 1 <= j < |r| ==> r[j] == rest[j - 1];
      }
    }
  }

  /** `rows.sort((a, b) => b - a)`: the same row numbers, largest first. */
  function SortDescending(rows: seq<int>): (r: seq<int>)
    ensures Descending(r)
    ensures multiset(r) == multiset(rows)
    decreases |rows|
  {
    if rows == [] then []
    else
      var rest := SortDescending(rows[1..]);
      assert rows == [rows[0]] + rows[1..];
      InsertSorted(rows[0], rest);
      InsertPermutes(rows[0], rest);
      InsertDescending(rows[0], rest)
  }

  /** Distinct row numbers come out strictly decreasing. */
  lemma {:induction false} SortDistinct(rows: seq<int>)
    requires Distinct(rows)
    ensures StrictlyDescending(SortDescending(rows))
    decreases |rows|
  {
    if rows != [] {
      var rest := SortDescending(rows[1..]);
      assert rows == [rows[0]] + rows[1..];
      assert Distinct(rows[1..]);
      SortDistinct(rows[1..]);
      assert rows[0] !in multiset(rows[1..]);
      InsertFresh(rows[0], rest);
    }
  }

  datatype Deleted = Deleted(grid: Grid, errors: seq<ItemError>)

  /** The `rows.forEach`: each row number in order on the grid the earlier deletions
      left, collecting `errores`. The ensures give the count balance; with
      `DeleteAllNamesOwn` every row number either removes one row or adds one error
      naming it. */
  function DeleteAll(g: Grid, rows: seq<int>): (d: Deleted)
    ensures |d.grid| + |rows| == |g| + |d.errors|
    ensures forall k :: 0 <= k < |d.errors| ==> d.errors[k].RowDeleteFailed? && d.errors[k].row in rows
    decreases |rows|
  {
    if rows == [] then Deleted(g, [])
    else
      var n := |rows| - 1;
      var done := DeleteAll(g, rows[..n]);
      if RowExists(done.grid, rows[n]) then Deleted(DeleteRow(done.grid, rows[n]), done.errors)
      else Deleted(done.grid, done.errors + [RowDeleteFailed(rows[n])])
  }

  /** The error that names each requested number, in request order. */
  function Named(rows: seq<int>): seq<ItemError>
  {
    seq(|rows|, k requires 0 <= k < |rows| => RowDeleteFailed(rows[k]))
  }

  /** Each number adds at most one error, naming itself: the errors are a sub-multiset
      of the numbers requested, so with the count balance of `DeleteAll` every number
      either removes a row or is reported, and none is reported for another. */
  lemma {:induction false} DeleteAllNamesOwn(g: Grid, rows: seq<int>)
    ensures multiset(DeleteAll(g, rows).errors) <= multiset(Named(rows))
    decreases |rows|
  {
    if rows != [] {
      var n := |rows| - 1;
      DeleteAllNamesOwn(g, rows[..n]);
      assert Named(rows) == Named(rows[..n]) + [RowDeleteFailed(rows[n])];
    }
  }

  /** The row numbers outside 1..|g|, as errors, in order. */
  function Failures(g: Grid, rows: seq<int>): (es: seq<ItemError>)
    ensures forall e :: e in es ==> e.RowDeleteFailed? && e.row in rows && !RowExists(g, e.row)
    ensures forall x :: x in rows && !RowExists(g, x) ==> RowDeleteFailed(x) in es
    decreases |rows|
  {
    if rows == [] then []
    else
      var n := |rows| - 1;
      var init := Failures(g, rows[..n]);
      assert rows == rows[..n] + [rows[n]];
      init + if RowExists(g, rows[n]) then [] else [RowDeleteFailed(rows[n])]
  }

  /** The numbers of rows of `g` among `rows`. */
  function InRange(g: Grid, rows: seq<int>): set<int>
  {
    set x | x in rows && RowExists(g, x)
  }

  /** Appending a row number adds it to the in-range set exactly when it is in range. */
  lemma InRangeSnoc(g: Grid, init: seq<int>, x: int)
    ensures InRange(g, init + [x]) == if RowExists(g, x) then InRange(g, init) + {x} else InRange(g, init)
  {
    assert forall y :: y in init + [x] <==> y in init || y == x;
  }

  /** In a strictly decreasing sequence every earlier number is above the last one. */
  lemma InRangeAbove(g: Grid, init: seq<int>, x: int)
    requires StrictlyDescending(init + [x])
    ensures forall m :: m in InRange(g, init) ==> m > x
  {
    var rows := init + [x];
    forall m | m in InRange(g, init) ensures m > x {
      var k :| 0 <= k < |init| && init[k] == m;
      assert rows[k] == m && rows[|init|] == x;
    }
  }

  /** One more deletion, below all the earlier ones. */
  lemma DeleteAllSnoc(g: Grid, init: seq<int>, x: int)
    requires StrictlyDescending(init + [x])
    requires DeleteAll(g, init) == Deleted(Without(g, InRange(g, init), 1), Failures(g, init))
    ensures DeleteAll(g, init + [x]) == Deleted(Without(g, InRange(g, init + [x]), 1), Failures(g, init + [x]))
  {
    var rows := init + [x];
    assert rows[..|init|] == init && rows[|init|] == x;
    var s := InRange(g, init);
    var h := Without(g, s, 1);
    var f := Failures(g, init);
    InRangeSnoc(g, init, x);
    InRangeAbove(g, init, x);
    if RowExists(g, x) {
      DeleteBelow(g, x, s);
      assert DeleteAll(g, rows) == Deleted(DeleteRow(h, x), f);
      assert Failures(g, rows) == f + [];
    } else {
      WithoutShorter(g, s, 1);
      assert !RowExists(h, x);
      assert DeleteAll(g, rows) == Deleted(h, f + [RowDeleteFailed(x)]);
      assert Failures(g, rows) == f + [RowDeleteFailed(x)];
    }
  }

  /** Deleting from the largest row number down removes exactly the rows named,
      numbered as in the original grid, and reports exactly the numbers outside it. */
  lemma {:induction false} DeleteAllDescending(g: Grid, rows: seq<int>)
    requires StrictlyDescending(rows)
    ensures DeleteAll(g, rows) == Deleted(Without(g, InRange(g, rows), 1), Failures(g, rows))
    decreases |rows|
  {
    if rows == [] {
      assert InRange(g, rows) == {};
      WithoutNone(g, {}, 1);
    } else {
      var n := |rows| - 1;
      var init := rows[..n];
      assert rows == init + [rows[n]];
      DeleteAllDescending(g, init);
      DeleteAllSnoc(g, init, rows[n]);
    }
  }

  /** The response and new grid of `handleDelete`. */
  function Delete(g: Grid, body: Body): Effect
  {
    match body
    case Unparsable => Effect(Err(InvalidJson), g)
    case Parsed(doc) =>
      var required := ["rows"];
      var invalid := ValidateJson(doc, required);
      if invalid.Some? then Effect(Err(MissingField(invalid.value)), g)
      else
        assert Truthy(doc, required[0]);
        var d := DeleteAll(g, SortDescending(doc.rows.value));
        Effect(if d.errors == [] then Ok(RowsDeleted) else Err(ItemErrors(d.errors)), d.grid)
  }

  /** Validation: without a `rows` array nothing is deleted. */
  lemma DeleteValidates(g: Grid, doc: Doc)
    ensures doc.rows.None? <==> Delete(g, Parsed(doc)) == Effect(Err(MissingField("rows")), g)
  {
    var required := ["rows"];
    if doc.rows.None? {
      var i :| FirstFalsy(doc, required, i) && required[i] == ValidateJson(doc, required).value;
    } else {
      assert Truthy(doc, required[0]);
      var d := DeleteAll(g, SortDescending(doc.rows.value));
      assert forall k :: 0 <= k < |d.errors| ==> d.errors[k].RowDeleteFailed?;
    }
  }

  /** Sorting neither adds nor drops a row number. */
  lemma SortKeepsMembers(rows: seq<int>)
    ensures forall x :: x in SortDescending(rows) <==> x in rows
  {
    var sorted := SortDescending(rows);
    forall x ensures x in sorted <==> x in rows {
      assert x in sorted <==> x in multiset(sorted);
      assert x in rows <==> x in multiset(rows);
    }
  }

  lemma InRangeSameMembers(g: Grid, a: seq<int>, b: seq<int>)
    requires forall x :: x in a <==> x in b
    ensures InRange(g, a) == InRange(g, b)
  {
  }

  /** No failure is reported exactly when every number names a row. */
  lemma FailuresEmptyIff(g: Grid, rows: seq<int>)
    ensures Failures(g, rows) == [] <==> forall x :: x in rows ==> RowExists(g, x)
  {
    var es := Failures(g, rows);
    if es != [] {
      assert es[0] in es;
    }
  }

  /** With distinct row numbers, the rows of the original grid that were named are
      gone and the others keep their order; the request succeeds exactly when every
      number named a row, and otherwise names each number that did not. */
  lemma DeleteDistinctRows(g: Grid, doc: Doc)
    requires doc.rows.Some? && Distinct(doc.rows.value)
    ensures var e := Delete(g, Parsed(doc)); var rows := doc.rows.value;
      e.grid == Without(g, InRange(g, rows), 1)
      && (e.response.Ok? <==> forall x :: x in rows ==> RowExists(g, x))
      && (!e.response.Ok? ==> e.response == Err(ItemErrors(Failures(g, SortDescending(rows)))))
  {
    var rows := doc.rows.value;
    var sorted := SortDescending(rows);
    var es := Failures(g, sorted);
    assert Truthy(doc, ["rows"][0]);
    assert Delete(g, Parsed(doc)) == Effect(
      if DeleteAll(g, sorted).errors == [] then Ok(RowsDeleted) else Err(ItemErrors(DeleteAll(g, sorted).errors)),
      DeleteAll(g, sorted).grid);
    SortDistinct(rows);
    DeleteAllDescending(g, sorted);
    SortKeepsMembers(rows);
    InRangeSameMembers(g, sorted, rows);
    FailuresEmptyIff(g, sorted);
  }

  /** Deleting row `x` twice deletes original rows `x` and `x + 1`: after the first
      deletion the next row has moved up into place `x`. */
  lemma RepeatDeletesBelow(g: Grid, x: int)
    requires 1 <= x && x + 1 <= |g|
    ensures DeleteAll(g, [x, x]).errors == []
    ensures DeleteAll(g, [x, x]).grid == g[..x - 1] + g[x + 1..]
  {
    assert [x][..0] == [] && [x, x][..1] == [x];
    var once := DeleteRow(g, x);
    assert DeleteAll(g, [x]) == Deleted(once, []);
    assert RowExists(once, x);
    assert DeleteRow(once, x) == g[..x - 1] + g[x + 1..];
  }

  /** A row number given twice sorts to that number twice. */
  lemma SortPair(rows: seq<int>, x: int)
    requires multiset(rows) == multiset{x, x}
    ensures SortDescending(rows) == [x, x]
  {
    var r := SortDescending(rows);
    assert |r| == |multiset(r)| == 2;
    assert r[0] in multiset(r) && r[1] in multiset(r);
  }

  /** A repeated row number is not deleted once. With `x` named twice, `handleDelete`
      answers success and removes two rows, the original rows `x` and `x + 1`, although
      only one row was named: the descending order protects the rows still to be deleted
      from renumbering only when the numbers are distinct. */
  lemma RepeatedRowDeletesNext(g: Grid, doc: Doc, x: int)
    requires doc.rows.Some? && multiset(doc.rows.value) == multiset{x, x}
    requires 1 <= x && x + 1 <= |g|
    ensures InRange(g, doc.rows.value) == {x}
    ensures Delete(g, Parsed(doc)) == Effect(Ok(RowsDeleted), g[..x - 1] + g[x + 1..])
    ensures |Delete(g, Parsed(doc)).grid| == |g| - 2
  {
    var rows := doc.rows.value;
    assert forall y :: y in rows <==> y in multiset(rows);
    assert Truthy(doc, ["rows"][0]);
    SortPair(rows, x);
    RepeatDeletesBelow(g, x);
  }

  /** `handleDelete(e, sheet)`. */
  method HandleDelete(sheet: Sheet, body: Body) returns (resp: Response)
    modifies sheet
    ensures Effect(resp, sheet.cells) == Delete(old(sheet.cells), body)
  {
    if body.Unparsable? {
      return Err(InvalidJson);
    }
    var jsonData := body.doc;
    var required := ["rows"];
    var validationError := ValidateJson(jsonData, required);
    if validationError.Some? {
      return Err(MissingField(validationError.value));
    }
    assert Truthy(jsonData, required[0]);
    var rows := SortDescending(jsonData.rows.value);
    var errores: seq<ItemError> := [];
    var i := 0;
    while i < |rows|
      invariant 0 <= i <= |rows|
      invariant Deleted(sheet.cells, errores) == DeleteAll(old(sheet.cells), rows[..i])
    {
      var row := rows[i];
      assert rows[..i + 1][..i] == rows[..i];
      var ok := sheet.DeleteRow(row);
      if !ok {
        errores := errores + [RowDeleteFailed(row)];
      }
      i := i + 1;
    }
    assert rows[..i] == rows;
    if |errores| > 0 {
      return Err(ItemErrors(errores));
    }
    return Ok(RowsDeleted);
  }
}
