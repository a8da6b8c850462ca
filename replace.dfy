/**
 * `handlePut`: replace the leading cells of one row. Both `row` and `values` must be
 * truthy; a range the service rejects is reported and nothing is written.
 */
module SingleReplace {
  import opened Cells
  import opened Protocol
  import opened Sheets

  /** The response and new grid of `handlePut`. */
  function Put(g: Grid, body: Body): Effect
  {
    match body
    case Unparsable => Effect(Err(InvalidJson), g)
    case Parsed(doc) =>
      var required := ["row", "values"];
      var invalid := ValidateJson(doc, required);
      if invalid.Some? then Effect(Err(MissingField(invalid.value)), g)
      else
        assert Truthy(doc, required[1]);
        if RangeFits(g, doc.row, 1, |doc.values.value|) then
          Effect(Ok(RowReplaced(doc.row)), WriteRange(g, doc.row, 1, doc.values.value))
        else Effect(Err(RowWriteFailed), g)
  }

  /** Validation: a falsy `row` is reported first, then a missing `values`; either
      way nothing is written. */
  lemma PutValidates(g: Grid, doc: Doc)
    ensures doc.row == 0 ==> Put(g, Parsed(doc)) == Effect(Err(MissingField("row")), g)
    ensures doc.row != 0 && doc.values.None? ==> Put(g, Parsed(doc)) == Effect(Err(MissingField("values")), g)
  {
    var required := ["row", "values"];
    var invalid := ValidateJson(doc, required);
    if doc.row == 0 {
      assert !Truthy(doc, required[0]);
      var i :| FirstFalsy(doc, required, i) && required[i] == invalid.value;
      assert i == 0;
    } else if doc.values.None? {
      assert Truthy(doc, required[0]) && !Truthy(doc, required[1]);
      var i :| FirstFalsy(doc, required, i) && required[i] == invalid.value;
      assert i == 1;
    }
  }

  /** A valid PUT succeeds exactly when the service accepts the range; then cells
      (row, 1..|values|) hold `values`, every other cell keeps its value, and the
      answer names the row. A rejected range changes nothing. */
  lemma PutReplacesRowPrefix(g: Grid, doc: Doc)
    requires doc.row != 0 && doc.values.Some?
    ensures var e := Put(g, Parsed(doc)); var vs := doc.values.value;
      (e.response.Ok? <==> RangeFits(g, doc.row, 1, |vs|))
      && (e.response.Ok? ==>
            e.response == Ok(RowReplaced(doc.row)) && SameShape(g, e.grid)
            && forall r, c :: InGrid(g, r, c) ==>
                 e.grid[r - 1][c - 1] == if r == doc.row && c <= |vs| then vs[c - 1] else g[r - 1][c - 1])
      && (!e.response.Ok? ==> e == Effect(Err(RowWriteFailed), g))
  {
    assert ValidateJson(doc, ["row", "values"]).None?;
  }

  /** `handlePut(e, sheet)`. */
  method HandlePut(sheet: Sheet, body: Body) returns (resp: Response)
    modifies sheet
    ensures Effect(resp, sheet.cells) == Put(old(sheet.cells), body)
  {
    if body.Unparsable? {
      return Err(InvalidJson);
    }
    var jsonData := body.doc;
    var required := ["row", "values"];
    var validationError := ValidateJson(jsonData, required);
    if validationError.Some? {
      return Err(MissingField(validationError.value));
    }
    assert Truthy(jsonData, required[1]);
    var row := jsonData.row;
    var values := jsonData.values.value;
    var ok := sheet.SetValues(row, 1, values);
    if !ok {
      return Err(RowWriteFailed);
    }
    return Ok(RowReplaced(row));
  }
}
