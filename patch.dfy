/**
 * `handlePatch`: set single cells of one row. Each update is handled on its own: an
 * update without a truthy `column` or with an undefined `value` is an error, a cell
 * the service rejects is an error, and the updates after it are still applied. Any
 * error turns the whole answer into an error, but the cells written stay written.
 */
module PartialUpdate {
  import opened Wrappers
  import opened Cells
  import opened Protocol
  import opened Sheets

  /** What one update does to grid `g` for row `row`: None when the cell is written. */
  function ItemOutcome(g: Grid, row: int, it: Item): Option<ItemError>
  {
    if it.column == 0 || it.value.None? then Some(MissingColumnOrValue)
    else if RangeFits(g, row, it.column, 1) then None
    else Some(CellWriteFailed(it.column, row))
  }

  /** The grid after one update: the cell is written only when the update is accepted. */
  function Apply(g: Grid, row: int, it: Item): (h: Grid)
    ensures SameShape(g, h)
  {
    if ItemOutcome(g, row, it).None? then WriteRange(g, row, it.column, [it.value.value]) else g
  }

  /** The entry one update adds to `errores`. */
  function Reported(e: Option<ItemError>): seq<ItemError>
  {
    if e.Some? then [e.value] else []
  }

  datatype Patched = Patched(grid: Grid, errors: seq<ItemError>)

  /** The `updates.forEach`: every update in order, each one on the grid the earlier
      ones left, collecting `errores`. */
  function PatchAll(g: Grid, row: int, items: seq<Item>): (p: Patched)
    ensures SameShape(g, p.grid)
    decreases |items|
  {
    if items == [] then Patched(g, [])
    else
      var n := |items| - 1;
      var done := PatchAll(g, row, items[..n]);
      Patched(Apply(done.grid, row, items[n]), done.errors + Reported(ItemOutcome(done.grid, row, items[n])))
  }

  /** Each update judged on its own against the grid the request started from. */
  function ErrorsOf(g: Grid, row: int, items: seq<Item>): seq<ItemError>
    decreases |items|
  {
    if items == [] then []
    else
      var n := |items| - 1;
      ErrorsOf(g, row, items[..n]) + Reported(ItemOutcome(g, row, items[n]))
  }

  lemma ItemOutcomeSameShape(g: Grid, h: Grid, row: int, it: Item)
    requires SameShape(g, h)
    ensures ItemOutcome(g, row, it) == ItemOutcome(h, row, it)
  {
  }

  /** A failed update does not stop the others: the collected errors are exactly the
      errors of each update on its own, in request order. */
  lemma {:induction false} PatchErrorsPerItem(g: Grid, row: int, items: seq<Item>)
    ensures PatchAll(g, row, items).errors == ErrorsOf(g, row, items)
    decreases |items|
  {
    if items != [] {
      var n := |items| - 1;
      PatchErrorsPerItem(g, row, items[..n]);
      ItemOutcomeSameShape(g, PatchAll(g, row, items[..n]).grid, row, items[n]);
    }
  }

  /** The value of the last update in `items` that sets column `c` with a defined value. */
  function LastValue(items: seq<Item>, c: int): (v: Option<Value>)
    ensures v.Some? <==> exists k :: 0 <= k < |items| && items[k].column == c && items[k].value.Some?
    decreases |items|
  {
    if items == [] then None
    else
      var n := |items| - 1;
      if items[n].column == c && items[n].value.Some? then items[n].value
      else
        var earlier := LastValue(items[..n], c);
        assert forall k :: 0 <= k < n ==> items[k] == items[..n][k];
        earlier
  }

  /** Only cells of row `row` change: cell (row, c) ends with the value of the last
      update for column c, and every other cell keeps its value. */
  lemma {:induction false} PatchCells(g: Grid, row: int, items: seq<Item>)
    ensures forall r, c :: InGrid(g, r, c) ==>
      PatchAll(g, row, items).grid[r - 1][c - 1]
        == if r == row && LastValue(items, c).Some? then LastValue(items, c).value else g[r - 1][c - 1]
    decreases |items|
  {
    if items != [] {
      var n := |items| - 1;
      var it := items[n];
      var done := PatchAll(g, row, items[..n]);
      PatchCells(g, row, items[..n]);
      ItemOutcomeSameShape(g, done.grid, row, it);
      forall r, c | InGrid(g, r, c)
        ensures PatchAll(g, row, items).grid[r - 1][c - 1]
          == if r == row && LastValue(items, c).Some? then LastValue(items, c).value else g[r - 1][c - 1]
      {
        assert InGrid(done.grid, r, c);
        if r == row && it.column == c && it.value.Some? {
          assert RangeFits(g, row, it.column, 1);
        }
      }
    }
  }

  /** The response and new grid of `handlePatch`. */
  function Patch(g: Grid, body: Body): Effect
  {
    match body
    case Unparsable => Effect(Err(InvalidJson), g)
    case Parsed(doc) =>
      var required := ["row", "updates"];
      var invalid := ValidateJson(doc, required);
      if invalid.Some? then Effect(Err(MissingField(invalid.value)), g)
      else
        assert Truthy(doc, required[1]);
        var p := PatchAll(g, doc.row, doc.updates.value);
        Effect(if p.errors == [] then Ok(RowPatched(doc.row)) else Err(ItemErrors(p.errors)), p.grid)
  }

  /** A valid PATCH answers with the aggregated per-update errors when there are any,
      and names the row otherwise; in both cases every accepted update is written and
      no cell outside row `row` changes. */
  lemma PatchOutcome(g: Grid, doc: Doc)
    requires doc.row != 0 && doc.updates.Some?
    ensures var e := Patch(g, Parsed(doc)); var errs := ErrorsOf(g, doc.row, doc.updates.value);
      e.response == (if errs == [] then Ok(RowPatched(doc.row)) else Err(ItemErrors(errs)))
      && SameShape(g, e.grid)
      && forall r, c :: InGrid(g, r, c) ==>
           e.grid[r - 1][c - 1] == if r == doc.row && LastValue(doc.updates.value, c).Some?
             then LastValue(doc.updates.value, c).value else g[r - 1][c - 1]
  {
    assert ValidateJson(doc, ["row", "updates"]).None?;
    PatchErrorsPerItem(g, doc.row, doc.updates.value);
    PatchCells(g, doc.row, doc.updates.value);
  }

  /** Validation: a falsy `row` is reported first, then a missing `updates`; either
      way nothing is written. */
  lemma PatchValidates(g: Grid, doc: Doc)
    ensures doc.row == 0 ==> Patch(g, Parsed(doc)) == Effect(Err(MissingField("row")), g)
    ensures doc.row != 0 && doc.updates.None? ==> Patch(g, Parsed(doc)) == Effect(Err(MissingField("updates")), g)
  {
    var required := ["row", "updates"];
    var invalid := ValidateJson(doc, required);
    if doc.row == 0 {
      var i :| FirstFalsy(doc, required, i) && required[i] == invalid.value;
      assert i == 0;
    } else if doc.updates.None? {
      assert Truthy(doc, required[0]) && !Truthy(doc, required[1]);
      var i :| FirstFalsy(doc, required, i) && required[i] == invalid.value;
      assert i == 1;
    }
  }

  /** The body of the `updates.forEach` callback for one update. */
  method PatchCell(sheet: Sheet, row: int, update: Item) returns (failure: Option<ItemError>)
    modifies sheet
    ensures failure == ItemOutcome(old(sheet.cells), row, update)
    ensures sheet.cells == Apply(old(sheet.cells), row, update)
  {
    if update.column == 0 || update.value.None? {
      return Some(MissingColumnOrValue);
    }
    var ok := sheet.SetValues(row, update.column, [update.value.value]);
    if !ok {
      return Some(CellWriteFailed(update.column, row));
    }
    return None;
  }

  /** The `updates.forEach` loop of `handlePatch`, pushing to `errores`. */
  method ApplyUpdates(sheet: Sheet, row: int, updates: seq<Item>) returns (errores: seq<ItemError>)
    modifies sheet
    ensures Patched(sheet.cells, errores) == PatchAll(old(sheet.cells), row, updates)
  {
    errores := [];
    var i := 0;
    while i < |updates|
      invariant 0 <= i <= |updates|
      invariant Patched(sheet.cells, errores) == PatchAll(old(sheet.cells), row, updates[..i])
    {
      var update := updates[i];
      assert updates[..i + 1][..i] == updates[..i];
      var failure := PatchCell(sheet, row, update);
      if failure.Some? {
        errores := errores + [failure.value];
      }
      i := i + 1;
    }
    assert updates[..i] == updates;
  }

  /** `handlePatch(e, sheet)`. */
  method HandlePatch(sheet: Sheet, body: Body) returns (resp: Response)
    modifies sheet
    ensures Effect(resp, sheet.cells) == Patch(old(sheet.cells), body)
  {
    if body.Unparsable? {
      return Err(InvalidJson);
    }
    var jsonData := body.doc;
    var required := ["row", "updates"];
    var validationError := ValidateJson(jsonData, required);
    if validationError.Some? {
      return Err(MissingField(validationError.value));
    }
    assert Truthy(jsonData, required[1]);
    var row := jsonData.row;
    var updates := jsonData.updates.value;
    var errores := ApplyUpdates(sheet, row, updates);
    if |errores| > 0 {
      return Err(ItemErrors(errores));
    }
    return Ok(RowPatched(row));
  }
}
