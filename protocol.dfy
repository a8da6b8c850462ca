/**
 * What a request carries once decoded and what the endpoint answers.
 *
 * The request body is modelled after `JSON.parse`: either the parse failed, or the
 * document is an object of which the handlers read at most the properties below.
 * JavaScript truthiness is kept in the types: a number property holds 0 when the
 * property is absent or falsy (undefined, null, 0, false, ""), and an array
 * property holds None when it is absent or falsy. Truthy values of another type
 * (a text `row`, an object `updates`) are outside the model.
 */
module Protocol {
  import opened Wrappers
  import opened Cells

  /** One element of a request's `updates` array: a JSON object. Batch POST reads
      `row` and `values` of it, PATCH reads `column` and `value`. A `value` of None
      is `undefined`; values 0 and None stand for the falsy cases as in `Doc`. */
  datatype Item = Item(row: int, values: Option<seq<Value>>, column: int, value: Option<Value>)

  /** The parsed request body: the four top-level properties the handlers read. */
  datatype Doc = Doc(row: int, values: Option<seq<Value>>, updates: Option<seq<Item>>, rows: Option<seq<int>>)

  datatype Body = Unparsable | Parsed(doc: Doc)

  /** `!!jsonData[field]`: the property is present and truthy. Any property other
      than the four above is absent from every document of the model. */
  predicate Truthy(doc: Doc, field: string)
  {
    match field
    case "row" => doc.row != 0
    case "values" => doc.values.Some?
    case "updates" => doc.updates.Some?
    case "rows" => doc.rows.Some?
    case _ => false
  }

  /** `required[i]` is the first field of the list that is not truthy. */
  predicate FirstFalsy(doc: Doc, required: seq<string>, i: int)
  {
    0 <= i < |required| && !Truthy(doc, required[i])
    && forall k :: 0 <= k < i ==> Truthy(doc, required[k])
  }

  /** `validateJson(jsonData, requiredFields)`: None when every required field is
      truthy, otherwise the first one in list order that is not. */
  function ValidateJson(doc: Doc, required: seq<string>): (r: Option<string>)
    ensures r.None? <==> forall i :: 0 <= i < |required| ==> Truthy(doc, required[i])
    ensures r.Some? ==> exists i :: FirstFalsy(doc, required, i) && required[i] == r.value
  {
    if required == [] then None
    else if !Truthy(doc, required[0]) then Some(required[0])
    else
      var rest := ValidateJson(doc, required[1..]);
      if rest.Some? then
        ghost var i :| FirstFalsy(doc, required[1..], i) && required[1..][i] == rest.value;
        assert FirstFalsy(doc, required, i + 1);
        rest
      else
        rest
  }

  /** A record: a data row keyed by the header names. A missing key is `undefined`. */
  type Record = map<Value, Value>

  /** One failed item of a PATCH or DELETE request. */
  datatype ItemError =
    | MissingColumnOrValue
    | CellWriteFailed(column: int, row: int)
    | RowDeleteFailed(row: int)

  datatype Failure =
    | NoSheetName
    | NoSuchSheet(name: string)
    | NotEnoughData
    | InvalidJson
    | NoUpdatesArray
    | MissingField(field: string)
    | BatchWriteFailed
    | RowWriteFailed
    | ItemErrors(errors: seq<ItemError>)

  datatype Outcome =
    | Records(records: seq<Record>)
    | RowsUpdated
    | RowReplaced(row: int)
    | RowPatched(row: int)
    | RowsDeleted

  datatype Response = Ok(outcome: Outcome) | Err(failure: Failure)

  /** What a write request leaves behind: its response and the sheet's new grid. */
  datatype Effect = Effect(response: Response, grid: Grid)

  /** A response whose body is plain text; the GET records are sent as a JSON array. */
  predicate IsText(r: Response)
  {
    !(r.Ok? && r.outcome.Records?)
  }

  function Digits(n: nat): (s: string)
    ensures |s| >= 1
  {
    if n < 10 then ["0123456789"[n]] else Digits(n / 10) + ["0123456789"[n % 10]]
  }

  /** JavaScript's decimal text of an integer, as `"Fila " + row` produces it. */
  function IntText(n: int): string
  {
    if n < 0 then "-" + Digits(-n) else Digits(n)
  }

  function ItemErrorText(e: ItemError): string
  {
    match e
    case MissingColumnOrValue => "Faltan 'column' o 'value' en la actualización."
    case CellWriteFailed(c, r) => "Error al actualizar columna " + IntText(c) + " en la fila " + IntText(r)
    case RowDeleteFailed(r) => "Error al eliminar la fila " + IntText(r)
  }

  /** `errores.join(", ")`. */
  function Join(es: seq<ItemError>): string
  {
    if es == [] then ""
    else if |es| == 1 then ItemErrorText(es[0])
    else ItemErrorText(es[0]) + ", " + Join(es[1..])
  }

  function FailureText(f: Failure): string
  {
    match f
    case NoSheetName => "No se ha proporcionado el nombre de la hoja."
    case NoSuchSheet(name) => "La hoja '" + name + "' no existe."
    case NotEnoughData => "La hoja no tiene suficientes datos."
    case InvalidJson => "El cuerpo de la solicitud no es un JSON válido."
    case NoUpdatesArray => "El cuerpo JSON debe contener un array 'updates'."
    case MissingField(field) => "Falta el campo '" + field + "' en el JSON."
    case BatchWriteFailed => "Error al actualizar las filas en batch"
    case RowWriteFailed => "Error al actualizar la fila"
    case ItemErrors(es) => Join(es)
  }

  /** The text body of a response: errors go through `createErrorResponse`. */
  function Render(r: Response): string
    requires IsText(r)
  {
    match r
    case Err(f) => "Error: " + FailureText(f)
    case Ok(RowsUpdated) => "Actualización exitosa de las filas."
    case Ok(RowReplaced(row)) => "Fila " + IntText(row) + " reemplazada correctamente."
    case Ok(RowPatched(row)) => "Fila " + IntText(row) + " actualizada parcialmente."
    case Ok(RowsDeleted) => "Filas eliminadas correctamente."
  }

  /** Clients tell failure from success only by the text: a text body starts with
      "Error: " exactly when the response is an error. */
  lemma ErrorPrefixIffFailure(r: Response)
    requires IsText(r)
    ensures (|Render(r)| >= 7 && Render(r)[..7] == "Error: ") <==> r.Err?
  {
    var t := Render(r);
    if r.Err? {
      assert t == "Error: " + FailureText(r.failure);
      assert t[..7] == "Error: ";
    } else {
      assert t[0] != 'E';
    }
  }
}
