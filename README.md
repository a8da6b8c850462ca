# Sheet endpoint model

A Dafny model of `api_gsheet/sheetmonlabs.js`, a Google Apps Script web endpoint
that exposes the sheets of a spreadsheet as a small REST-style table service:

- `doGet` answers a read of one sheet with its data rows as records (header name to
  cell), filtered by equality on the query parameters that name a header;
- `doPost` writes, dispatching on the `_method` query parameter:
  - a batch POST replaces row prefixes, sorted by row, and stops at the first
    rejected write;
  - PUT replaces the prefix of one row;
  - PATCH sets single cells, collecting one error per failed update;
  - DELETE deletes rows from the largest number down, collecting one error per
    rejected row.

The descending order of DELETE is there so that no deletion renumbers a row still
to be deleted. That holds for distinct row numbers (`MultiDelete.DeleteDistinctRows`),
but not for a repeated one: the code deletes row `x` a second time, and by then the
original row `x + 1` has moved up into place `x`, so a row nobody named is removed
and the request still answers success (`MultiDelete.RepeatedRowDeletesNext`: with
`x` named twice on a grid with a row below it, two rows go). The model keeps the
code's behaviour.

A sheet is a grid of text cells, `seq<seq<Value>>`, numbered from 1 as the service
numbers rows and columns; row 1 holds the headers. The sheet is a class whose
`cells` field the handlers change in place through two service calls, a range
write and a row deletion. A call the service would reject is modelled as a call
outside the grid: a range that does not lie inside one existing row, or a row
number outside 1..N. Each write handler is a method proved equal to a specification
function that gives the response and the new grid; the POST, PATCH and DELETE
handlers loop over the items as the source does, PUT makes a single write. The
lemmas state what those functions guarantee.

Modules: `Cells` (grid.dfy: the grid and the two service calls), `Protocol`
(protocol.dfy: the decoded request, validation, responses and their text),
`Sheets` (sheets.dfy: the sheet class and sheet lookup), `Reads` (reads.dfy: GET),
`Batch` (batch.dfy: POST), `SingleReplace` (replace.dfy: PUT), `PartialUpdate`
(patch.dfy: PATCH), `MultiDelete` (delete.dfy: DELETE), `Router` (router.dfy:
`doPost`), `Wrappers` (wrappers.dfy: `Option`).

The request body is modelled after `JSON.parse`, as `Unparsable` or a `Doc` holding
the four properties the handlers read. JavaScript truthiness is carried by the
types. A number property is 0 when it is absent or falsy. An array property is
`None` when it is absent or falsy; an empty array is truthy. A PATCH `value` of
`None` is `undefined`.

## Model

| member | source | states |
|---|---|---|
| Sheets.GetSheetByName | api_gsheet/sheetmonlabs.js:2-13 | an absent or empty name fails with the missing-name error before any lookup; an unknown name fails with an error naming it; otherwise the sheet of that name is found, and only then |
| Protocol.ValidateJson | api_gsheet/sheetmonlabs.js:22-29 | no error exactly when every required field is truthy (so `row: 0` is missing); otherwise the error names the first required field, in list order, that is not truthy |
| Protocol.ErrorPrefixIffFailure | api_gsheet/sheetmonlabs.js:16-19 | a text response starts with "Error: " exactly when it is an error, as `createErrorResponse` prefixes every error and no success text starts that way |
| Reads.Read | api_gsheet/sheetmonlabs.js:43-45 | a grid with fewer than 2 rows gives the not-enough-data error and never a record list; any larger grid gives a record list |
| Reads.CollectFilters | api_gsheet/sheetmonlabs.js:51-55 | the filters are exactly the query parameters other than `sheetName` whose name is a header, each with the parameter's value |
| Reads.ZipRow | api_gsheet/sheetmonlabs.js:61-63 | the loop builds the record `Zip` describes: header j gets cell j, a later duplicate header wins, a header past the row's end is undefined |
| Reads.ZipLastWins | api_gsheet/sheetmonlabs.js:61-63 | for any headers and row: header j gets cell j when no later header has its name, and is undefined when the row ends before column j; so among equal headers the last one's cell wins |
| Reads.ZipKeysAreHeaders | api_gsheet/sheetmonlabs.js:61-63 | every key of a record is a header name |
| Reads.ZipKeys | api_gsheet/sheetmonlabs.js:61-63 | with a row at least as long as the headers, the record's keys are exactly the header names |
| Reads.ZipPositional | api_gsheet/sheetmonlabs.js:61-63 | with distinct headers and a full row, the record is the positional zip: header j maps to cell j |
| Reads.MatchRow | api_gsheet/sheetmonlabs.js:65-70 | the loop with its `break` decides a row matches exactly when the record has every filter column with the filter's value |
| Reads.ReadRecords | api_gsheet/sheetmonlabs.js:40-76 | the read loop answers exactly what `Read` specifies: the error for a short grid, else the records of the matching data rows in row order |
| Reads.PassingExact | api_gsheet/sheetmonlabs.js:57-75 | a data row is among the passing rows exactly when its record passes the filters |
| Reads.PassingSelects | api_gsheet/sheetmonlabs.js:57-75 | the pushed records are, one for one and in order, the records of the passing rows |
| Reads.PassingIncreasing | api_gsheet/sheetmonlabs.js:57-75 | the passing rows are listed in strictly increasing order |
| Reads.MatchingRowsExact | api_gsheet/sheetmonlabs.js:57-75 | a data row (service rows 2..N, indices 1..N-1 in the 0-based grid `g`) is among the returned rows exactly when its record passes the filters |
| Reads.MatchingRowsRecords | api_gsheet/sheetmonlabs.js:57-75 | there is one returned record per returned row, record k being the header row zipped with that row |
| Reads.ReadKeepsGridOrder | api_gsheet/sheetmonlabs.js:57-75 | the result is exactly the records of the data rows that pass the filters, each once, in grid order: record k is the header row zipped with `g[rows[k]]` (`rows` holds 0-based indices in `g`, service row r being index r-1), the indices are strictly increasing, and a data row is listed exactly when its record passes (so two identical matching rows give two records) |
| Reads.SelectMatches | api_gsheet/sheetmonlabs.js:65-74 | every pushed record passes the filters |
| Reads.ReadMatchesFilters | api_gsheet/sheetmonlabs.js:51-75 | every returned record has, on each filter column, exactly that query parameter's value |
| Reads.SelectFinds | api_gsheet/sheetmonlabs.js:57-75 | a data row whose record passes the filters has its record among the pushed ones |
| Reads.FiltersAgree | api_gsheet/sheetmonlabs.js:51-55 | a record agreeing with every query parameter that names a header passes the filters |
| Reads.ReadFindsMatchingRow | api_gsheet/sheetmonlabs.js:51-75 | completeness: a data row whose record agrees with every query parameter naming a header is returned |
| Reads.SelectAll | api_gsheet/sheetmonlabs.js:57-75 | when every data row passes, every record is pushed, in row order |
| Reads.ReadUnfiltered | api_gsheet/sheetmonlabs.js:51-75 | with no query parameter naming a header, exactly N-1 records come back, record k being data row k+1 zipped with the headers |
| Reads.DoGet | api_gsheet/sheetmonlabs.js:31-79 | an unresolved sheet is answered with the lookup's error; otherwise the answer is the read of that sheet's grid |
| Router.Route | api_gsheet/sheetmonlabs.js:82 | PUT, PATCH and DELETE are chosen exactly when `_method` upper-cases to that name; an absent or empty `_method`, or any other value, is POST |
| Router.UpperIdempotent | api_gsheet/sheetmonlabs.js:82 | upper-casing twice equals upper-casing once |
| Router.RouteIgnoresCase | api_gsheet/sheetmonlabs.js:82 | `_method` is compared without regard to case: a value and its upper-case form select the same handler |
| Router.DoPost | api_gsheet/sheetmonlabs.js:81-101 | a sheet-resolution failure is answered with its error before any handler runs and no sheet changes; otherwise the selected handler's response and grid are those of its specification on that sheet, and no other sheet changes |
| Sheets.Sheet.SetValues | api_gsheet/sheetmonlabs.js:133-134 | a range write succeeds exactly when the range lies inside an existing row; then exactly those cells take the values, otherwise nothing changes |
| Sheets.Sheet.DeleteRow | api_gsheet/sheetmonlabs.js:241 | a row deletion succeeds exactly when the row exists; then the rows below move up by one, otherwise nothing changes |
| Cells.WriteRange | api_gsheet/sheetmonlabs.js:133-134 | the grid keeps its shape; cells (row, col..col+\|vs\|-1) hold `vs` and every other cell keeps its value |
| Cells.DeleteRow | api_gsheet/sheetmonlabs.js:241 | one row fewer; the rows above the deleted one stay, the rows below move up by one |
| Cells.DeleteBelow | api_gsheet/sheetmonlabs.js:237-245 | once rows all numbered above `row` are deleted, row `row` still exists, and deleting it removes exactly the original rows named so far: no earlier deletion renumbered it |
| Batch.Collect | api_gsheet/sheetmonlabs.js:121-127 | every kept item has a truthy row |
| Batch.CollectKeeps | api_gsheet/sheetmonlabs.js:121-127 | an item is kept exactly when its `row` is truthy and its `values` is an array, and it is kept with that row and those values |
| Batch.SortByRow | api_gsheet/sheetmonlabs.js:129 | the sorted batch is ascending by row and a permutation of the collected items |
| Batch.SortByRowStable | api_gsheet/sheetmonlabs.js:129 | the sort is stable: on every row, the sorted batch holds the same items in the same order as the request |
| Batch.SortKeepsItems | api_gsheet/sheetmonlabs.js:129 | sorting neither adds nor drops an item |
| Batch.WriteAll | api_gsheet/sheetmonlabs.js:131-138 | the writes never change the grid's shape |
| Batch.WriteAllOkIff | api_gsheet/sheetmonlabs.js:131-138 | the write loop completes exactly when the service accepts every item's range |
| Batch.WriteAllCells | api_gsheet/sheetmonlabs.js:131-138 | after a completed loop each cell holds the value of the last item covering it, and a cell no item covers keeps its value |
| Batch.WriteAllAborts | api_gsheet/sheetmonlabs.js:131-138 | a rejected item k ends the loop: items before k were accepted and their writes are the whole effect; k and later items are not written |
| Batch.LastWrite | api_gsheet/sheetmonlabs.js:131-135 | a last covering value exists exactly when some item covers the cell |
| Batch.LastWriteOnRow | api_gsheet/sheetmonlabs.js:131-135 | only the items on row r decide the cells of row r |
| Batch.PostSucceedsIff | api_gsheet/sheetmonlabs.js:114-141 | a parsed batch succeeds exactly when `updates` is an array and the service accepts the range of every kept item |
| Batch.PostCells | api_gsheet/sheetmonlabs.js:121-138 | a successful batch keeps the grid's shape and acts as writing the kept items in request order: each cell holds the last covering item's value, and every other cell is unchanged |
| Batch.PostAborts | api_gsheet/sheetmonlabs.js:131-138 | a failed batch answers the batch error; some sorted item k was rejected after all items before it were accepted, and the grid is exactly that of writing items 0..k-1 |
| Batch.HandlePost | api_gsheet/sheetmonlabs.js:104-142 | the handler's response and new grid are those of `Post` on the old grid: no `updates` array and unparsable bodies change nothing |
| SingleReplace.PutValidates | api_gsheet/sheetmonlabs.js:155-158 | a falsy `row` is reported first, then a missing `values`; in both cases the grid is unchanged |
| SingleReplace.PutReplacesRowPrefix | api_gsheet/sheetmonlabs.js:160-171 | a valid PUT succeeds exactly when the range fits; then cells (row, 1..\|values\|) hold `values`, every other cell keeps its value and the answer names the row; a rejected range changes nothing |
| SingleReplace.HandlePut | api_gsheet/sheetmonlabs.js:145-172 | the handler's response and new grid are those of `Put` on the old grid |
| PartialUpdate.Apply | api_gsheet/sheetmonlabs.js:194-207 | one update never changes the grid's shape |
| PartialUpdate.PatchAll | api_gsheet/sheetmonlabs.js:194-208 | the updates never change the grid's shape |
| PartialUpdate.PatchErrorsPerItem | api_gsheet/sheetmonlabs.js:194-208 | a failed update does not stop the others: the collected errors are exactly each update's own error, judged against the original grid, in request order |
| PartialUpdate.LastValue | api_gsheet/sheetmonlabs.js:194-208 | a last value for column c exists exactly when some update names column c with a defined value |
| PartialUpdate.PatchCells | api_gsheet/sheetmonlabs.js:194-208 | only cells of row `row` change; cell (row, c) ends with the value of the last update for column c, every other cell keeps its value |
| PartialUpdate.PatchOutcome | api_gsheet/sheetmonlabs.js:190-215 | a valid PATCH answers the aggregated errors when there are any and names the row otherwise; either way every accepted update is written and no cell outside the row changes |
| PartialUpdate.PatchValidates | api_gsheet/sheetmonlabs.js:185-188 | a falsy `row` is reported first, then a missing `updates`; in both cases the grid is unchanged |
| PartialUpdate.PatchCell | api_gsheet/sheetmonlabs.js:195-207 | one update: an update without a truthy column or with an undefined value is an error and writes nothing; otherwise the cell is written when the service accepts it, else an error names column and row |
| PartialUpdate.ApplyUpdates | api_gsheet/sheetmonlabs.js:194-208 | the loop's grid and error list are those of `PatchAll` on the old grid |
| PartialUpdate.HandlePatch | api_gsheet/sheetmonlabs.js:175-216 | the handler's response and new grid are those of `Patch` on the old grid |
| MultiDelete.SortDescending | api_gsheet/sheetmonlabs.js:237 | the sorted numbers are non-increasing and a permutation of `rows` |
| MultiDelete.SortDistinct | api_gsheet/sheetmonlabs.js:237 | distinct row numbers come out strictly decreasing |
| MultiDelete.SortKeepsMembers | api_gsheet/sheetmonlabs.js:237 | sorting neither adds nor drops a row number |
| MultiDelete.DeleteAll | api_gsheet/sheetmonlabs.js:239-245 | whatever the order and repetitions, the rows removed plus the errors reported equal the numbers requested, and every error names a requested number |
| MultiDelete.DeleteAllNamesOwn | api_gsheet/sheetmonlabs.js:239-245 | errors are one-to-one with requested numbers: each number adds at most one error naming itself, so the errors form a sub-multiset of the numbers requested (with `DeleteAll`'s count balance, every number either removes a row or is reported) |
| MultiDelete.Failures | api_gsheet/sheetmonlabs.js:239-245 | the reported numbers are exactly the requested numbers outside 1..N |
| MultiDelete.FailuresEmptyIff | api_gsheet/sheetmonlabs.js:239-248 | no failure is reported exactly when every number names a row |
| MultiDelete.DeleteAllDescending | api_gsheet/sheetmonlabs.js:237-245 | deleting strictly descending numbers removes exactly the named rows of the original grid, keeps the others in order, and reports exactly the numbers outside it |
| MultiDelete.DeleteValidates | api_gsheet/sheetmonlabs.js:229-232 | the missing-`rows` error is answered, with the grid unchanged, exactly when `rows` is absent or falsy |
| MultiDelete.DeleteDistinctRows | api_gsheet/sheetmonlabs.js:234-252 | with distinct numbers, the result is the original grid without exactly the named rows, the others in their original order; it succeeds exactly when every number names a row, and otherwise reports each one that did not |
| MultiDelete.RepeatDeletesBelow | api_gsheet/sheetmonlabs.js:239-245 | deleting row x twice, with a row below it, reports no error and removes the original rows x and x+1 |
| MultiDelete.RepeatedRowDeletesNext | api_gsheet/sheetmonlabs.js:229-252 | for every grid and every `rows` naming x twice with a row below it: only row x is named, yet the answer is success and two rows are gone, the original rows x and x+1 |
| MultiDelete.HandleDelete | api_gsheet/sheetmonlabs.js:219-253 | the handler's response and new grid are those of `Delete` on the old grid |

## Left out

- Apps Script plumbing is not modelled: `SpreadsheetApp`, `ContentService`, MIME types and HTTP. A response is a value; `Protocol.Render` gives its text body.
- The GET answer's `JSON.stringify` text and the key order of its records are not modelled; records are maps.
- Reads.Zip, Reads.Filters and Reads.ZipKeys: records and filters are maps, so every header and every query parameter name is a key. The source builds them as plain objects (lines 53 and 62), where an assignment to the key `__proto__` goes to the inherited setter, which ignores a text value: the source drops a header or a query parameter named `__proto__`, and the model keeps it.
- `JSON.parse` is not modelled. The body is already decoded, or `Unparsable`.
- Bodies of the wrong shape are outside the model where the source throws an uncaught TypeError: a request without `postData` (lines 105, 146, 176 and 220), a body that parses to `null` (the property reads at lines 114 and 24 fail), a `null` element of `updates` (lines 122 and 195), a truthy non-array `updates` in PATCH (`forEach` at line 194), a truthy non-array `rows` (`sort` at line 237).
- Other wrong-typed properties the source answers, but the model's types cannot express: a truthy non-array `values` in PUT passes validation, and the range write at lines 164-165 then throws inside the `try`, so line 167 answers a row-write error; a text `row` is compared as a number by the sort at line 129 but keeps its text, which reaches the service only inside the `try` blocks at lines 133, 164 and 204. The model's `Doc` has only integer rows and array-or-absent `values`. Cases the model does cover through its types: a truthy non-array `updates` in POST is answered with the no-updates-array error (lines 114-115), as `None` is; a non-object element of `updates` such as `5` reads every property as `undefined`, which is `Item(0, None, 0, None)`.
- Cells and query values are text, compared with `==`. Numeric or date cells and JavaScript's loose `!=` between numbers and text are not modelled. Row and column numbers are integers, not floating-point numbers.
- Service failures are an abstraction. A write fails exactly when its range is not inside one existing row, including a width of 0. A deletion fails exactly when the row number is outside 1..N. Real causes differ: auto-growth on writes past the grid, deleting the sheet's last remaining row, quotas and protected ranges.
- Error texts omit the service's `error.message` that the source appends after ": ".
- `getDataRange` is taken to be the whole grid.
- `getSheetByName` matches names exactly. The service's own name matching is not part of this model.
- Router.Route: `toUpperCase` is modelled for a..z only. Every other character whose upper case holds an ASCII letter either also yields a non-ASCII character (e.g. `ẖ` gives H and a combining mark) or yields an F, I or S (`ı`, `ſ`, `ß`, the ligatures `ﬀ` to `ﬆ`), a letter absent from PUT, PATCH and DELETE, so routing is unaffected.
- Batch.HandlePost and MultiDelete.HandleDelete: the built-in sorts are specified by a stable insertion sort on values, not as an in-place algorithm. For integers every correct sort gives the same result; for the batch the stable sort is the one ECMAScript 2019 requires.
- Concurrent requests on the same spreadsheet are not modelled.
