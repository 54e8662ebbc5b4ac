/** Value types shared by every stage of the character pipeline: records as
    string maps, the optional and failure-carrying wrappers, and the closed
    error taxonomy of the services. */
module Records {

  /** One character record: field name to field value. CSV values are always
      strings, and the list-valued API fields are carried as opaque strings. */
  type Record = map<string, string>

  datatype Option<+T> = None | Some(value: T)

  datatype Result<+T, +E> = Success(value: T) | Failure(error: E)

  /** The errors a caller of the services can observe. */
  datatype Error =
    | RequestError(url: string)          // an HTTP request for a listing page failed
    | NotFound(filename: string)         // the snapshot file does not exist
    | InvalidColumns(columns: seq<string>) // aggregation on columns absent from the header
    | FieldSelection(fields: set<string>)  // fields to convert or cut out that are no column of the table
    | UndatedRecord(index: nat)            // the record at `index` has no `edited` value to slice

  /** The value of a field, or the empty string when the record lacks it
      (a CSV cell that is absent reads as empty). */
  function Field(r: Record, name: string): (v: string)
    ensures name in r ==> v == r[name]
    ensures name !in r ==> v == ""
  {
    if name in r then r[name] else ""
  }

  function Min(a: int, b: int): (m: int)
    ensures m <= a && m <= b && (m == a || m == b)
  {
    if a <= b then a else b
  }
}
