/**
 * `doPost`: HTML forms can only send GET and POST, so the write method travels in
 * the `_method` query parameter, compared without regard to case; anything else,
 * or no parameter at all, is a plain batch POST. The sheet is resolved before any
 * handler runs, and only that sheet is ever changed.
 */
module Router {
  import opened Wrappers
  import opened Cells
  import opened Protocol
  import opened Sheets
  import Batch
  import SingleReplace
  import PartialUpdate
  import MultiDelete

  datatype Verb = POST | PUT | PATCH | DELETE

  /** `toUpperCase` on one character of the Latin alphabet; other characters stay. */
  function UpperChar(c: char): char
  {
    if 'a' <= c <= 'z' then (c as int - 32) as char else c
  }

  /** `toUpperCase`: every letter a..z becomes A..Z, nothing else changes. */
  function Upper(s: string): (u: string)
    ensures |u| == |s|
    decreases |s|
  {
    if s == [] then [] else [UpperChar(s[0])] + Upper(s[1..])
  }

  /** Upper-casing twice is upper-casing once. */
  lemma {:induction false} UpperIdempotent(s: string)
    ensures Upper(Upper(s)) == Upper(s)
    decreases |s|
  {
    if s != [] {
      UpperIdempotent(s[1..]);
      var u := Upper(s);
      assert u[0] == UpperChar(s[0]) && u[1..] == Upper(s[1..]);
    }
  }

  /** The method named by `e.parameter._method`: a truthy value selects PUT, PATCH or
      DELETE when it upper-cases to that name, and every other case is POST. */
  function Route(override: Option<string>): (v: Verb)
    ensures v == PUT <==> override.Some? && Upper(override.value) == "PUT"
    ensures v == PATCH <==> override.Some? && Upper(override.value) == "PATCH"
    ensures v == DELETE <==> override.Some? && Upper(override.value) == "DELETE"
    ensures override.None? || override.value == "" ==> v == POST
  {
    if override.None? || override.value == "" then POST
    else
      var m := Upper(override.value);
      if m == "PUT" then PUT
      else if m == "PATCH" then PATCH
      else if m == "DELETE" then DELETE
      else POST
  }

  /** The comparison ignores case: `_method=delete`, `Delete` and `DELETE` agree. */
  lemma RouteIgnoresCase(s: string)
    ensures Route(Some(s)) == Route(Some(Upper(s)))
  {
    UpperIdempotent(s);
  }

  /** The response and new grid of the handler `verb` selects, on the resolved sheet. */
  function Dispatch(verb: Verb, g: Grid, body: Body): Effect
  {
    match verb
    case PUT => SingleReplace.Put(g, body)
    case PATCH => PartialUpdate.Patch(g, body)
    case DELETE => MultiDelete.Delete(g, body)
    case POST => Batch.Post(g, body)
  }

  /** `doPost(e)`: an unresolved sheet is answered before the body is looked at and
      changes nothing; otherwise the selected handler runs on that sheet alone. */
  method DoPost(book: Spreadsheet, params: map<string, string>, body: Body) returns (resp: Response)
    modifies book.Values
    ensures var found := GetSheetByName(book, Param(params, "sheetName"));
      found.Missing? ==> resp == Err(found.failure)
    ensures var found := GetSheetByName(book, Param(params, "sheetName"));
      found.Found? ==>
        Effect(resp, found.sheet.cells) == Dispatch(Route(Param(params, "_method")), old(found.sheet.cells), body)
    ensures var found := GetSheetByName(book, Param(params, "sheetName"));
      forall s :: s in book.Values && (found.Missing? || s != found.sheet) ==> s.cells == old(s.cells)
  {
    var verb := Route(Param(params, "_method"));
    var found := GetSheetByName(book, Param(params, "sheetName"));
    if found.Missing? {
      return Err(found.failure);
    }
    var sheet := found.sheet;
    match verb
    case PUT => resp := SingleReplace.HandlePut(sheet, body);
    case PATCH => resp := PartialUpdate.HandlePatch(sheet, body);
    case DELETE => resp := MultiDelete.HandleDelete(sheet, body);
    case POST => resp := Batch.HandlePost(sheet, body);
  }
}
