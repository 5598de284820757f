/** What a handler sends back. */
module Http {
  import opened Json
  import opened Tables

  /** The status code of every rejection in this service. */
  const BadRequest := 400

  /** An error response: `{'message': message}` with an HTTP status. */
  datatype Rejection = Rejection(message: string, status: int)

  /** A create handler's answer: the new record's `read()` (status 200) or a rejection. */
  datatype Response = Ok(body: Object) | Rejected(rejection: Rejection)

  /** `[x.read() for x in X.query.all()]`: one serialised entry per row, in table order. */
  function ReadAll<R>(rows: seq<Row<R>>, read: Row<R> -> Object): (r: seq<Object>)
    ensures |r| == |rows|
    ensures forall i :: 0 <= i < |rows| ==> r[i] == read(rows[i])
  {
    seq(|rows|, i requires 0 <= i < |rows| => read(rows[i]))
  }

  /** After a create, the listing is the old listing followed by the new row. */
  lemma ReadAllAppend<R>(rows: seq<Row<R>>, row: Row<R>, read: Row<R> -> Object)
    ensures ReadAll(rows + [row], read) == ReadAll(rows, read) + [read(row)]
  {
  }
}
